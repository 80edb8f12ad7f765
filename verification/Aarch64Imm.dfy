/**
  Logical (bitmask) immediates of aarch64 (`imm13` in jita/aarch64/encoder.py) against the
  DecodeBitMasks pseudocode of the Arm Architecture Reference Manual (DDI 0487, appendix J1).
 */
module Aarch64Imm {
  import opened Bits
  import opened Wrappers

  // ----- The Arm pseudocode -----

  predicate Element(e: nat)
  {
    e == 2 || e == 4 || e == 8 || e == 16 || e == 32 || e == 64
  }

  function Ones(k: nat): nat
  {
    Pow2(k) - 1
  }

  function Shr(x: nat, k: nat): nat
  {
    hide Pow2;
    x / Pow2(k)
  }

  function Shl(x: nat, k: nat): nat
  {
    hide Pow2;
    x * Pow2(k)
  }

  function Low(x: nat, k: nat): nat
  {
    hide Pow2;
    x % Pow2(k)
  }

  /** ROR of an `e` bit value. */
  function Ror(x: nat, r: nat, e: nat): nat
    requires r <= e
  {
    hide Or, Pow2;
    Or(Shr(x, r), Shl(x, e - r)) % Pow2(e)
  }

  /** Replicate: `count` copies of an `e` bit value. */
  function Replicate(elt: nat, e: nat, count: nat): nat
  {
    if count == 0 then 0 else Replicate(elt, e, count - 1) * Pow2(e) + elt
  }

  /** HighestSetBit, or 0 if there is none above bit 0. */
  function HighestSetBit(x: nat): nat
  {
    if x < 2 then 0 else 1 + HighestSetBit(x / 2)
  }

  /** The pattern of `width` bits that N:immr:imms stands for, or None where the encoding is UNDEFINED. */
  function DecodeBitMasks(n: nat, immr: nat, imms: nat, width: nat): Option<nat>
    requires n < 2 && immr < 64 && imms < 64 && (width == 32 || width == 64)
  {
    hide Pow2, Or, Ror, Replicate;
    var len := HighestSetBit(64 * n + (63 - imms));
    if (width == 32 && n == 1) || len < 1 then None
    else
      var e := Pow2(len);
      var s, r := imms % e, immr % e;
      if s == e - 1 then None else Some(Replicate(Ror(Ones(s + 1), r, e), e, width / e))
  }

  predicate Decodes(n: nat, immr: nat, imms: nat, width: nat, v: nat)
    requires width == 32 || width == 64
  {
    n < 2 && immr < 64 && imms < 64 && DecodeBitMasks(n, immr, imms, width) == Some(v)
  }

  /** A run of k ones rotated right by r in elements of e bits, over 64 bits. */
  function Pattern(k: nat, r: nat, e: nat): nat
    requires Element(e) && r < e
  {
    hide Pow2, Or, Replicate;
    Replicate(Ror(Ones(k), r, e), e, 64 / e)
  }

  // ----- Bits of ones, rotations and replications -----

  lemma {:induction false} BitOnes(k: nat, i: nat)
    ensures Bit(Ones(k), i) == (i < k)
  {
    if k == 0 {
      BitOfZero(i);
    } else {
      assert Ones(k) == 2 * Ones(k - 1) + 1;
      if i > 0 {
        BitOnes(k - 1, i - 1);
      }
    }
  }

  /** i + r modulo e */
  function Rot(i: nat, r: nat, e: nat): nat
  {
    if i + r < e then i + r else i + r - e
  }

  lemma RorBit(x: nat, r: nat, e: nat, i: nat)
    requires x < Pow2(e) && r < e && i < e
    ensures Bit(Ror(x, r, e), i) == Bit(x, Rot(i, r, e))
  {
    hide Or, Bit, Pow2;
    var a, b := Shr(x, r), Shl(x, e - r);
    BitMod(Or(a, b), e, i);
    BitOr(a, b, i);
    BitShr(x, r, i);
    BitShl(x, e - r, i);
    if i + r >= e {
      BitAbove(x, e, i + r);
    }
  }

  lemma RorBound(x: nat, r: nat, e: nat)
    requires r <= e
    ensures Ror(x, r, e) < Pow2(e)
  {
  }

  /** A bit of a rotated run of k ones: the run covers the positions that rotate to below k. */
  lemma RunBit(k: nat, r: nat, e: nat, i: nat)
    requires k <= e && r < e && i < e
    ensures Ones(k) < Pow2(e)
    ensures Bit(Ror(Ones(k), r, e), i) == (Rot(i, r, e) < k)
  {
    hide Or, Bit, Ror;
    PowMonotone(k, e);
    RorBit(Ones(k), r, e, i);
    BitOnes(k, Rot(i, r, e));
  }

  lemma {:induction false} ReplicateBit(elt: nat, e: nat, count: nat, i: nat)
    requires elt < Pow2(e) && 0 < e && i < e * count
    ensures Bit(Replicate(elt, e, count), i) == Bit(elt, i % e)
  {
    hide Or, Bit, Pow2;
    var x := Replicate(elt, e, count - 1);
    var p := Pow2(e);
    DivModUnique(x * p + elt, p, x, elt);
    if i < e {
      DivModUnique(i, e, 0, i);
      BitMod(x * p + elt, e, i);
    } else {
      assert e * count == e * (count - 1) + e;
      BitShr(x * p + elt, e, i - e);
      ReplicateBit(elt, e, count - 1, i - e);
      DivModUnique(i, e, (i - e) / e + 1, (i - e) % e);
    }
  }

  lemma ReplicateLow(elt: nat, e: nat, count: nat)
    requires elt < Pow2(e) && 0 < count
    ensures Replicate(elt, e, count) % Pow2(e) == elt
  {
    DivModUnique(Replicate(elt, e, count), Pow2(e), Replicate(elt, e, count - 1), elt);
  }

  // ----- The smallest period is the element size -----

  /** `v` is its low e bits over and over. */
  predicate Repeats(v: nat, e: nat)
    requires 0 < e
  {
    Replicate(v % Pow2(e), e, 64 / e) == v
  }

  /** No rotation of a proper run of ones maps the run to itself. */
  lemma NoShift(k: nat, e: nat, d: nat) returns (j: nat)
    requires 0 < k < e && 0 < d < e
    ensures j < e && (Rot(j, d, e) < k) != (j < k)
  {
    j := if k - 1 + d < e then k - 1 else k;
  }

  lemma ElementMultiple(d: nat, e: nat)
    requires Element(d) && Element(e) && d <= e
    ensures e % d == 0 && 64 / e * e == 64 && e <= 64
  {
  }

  lemma RotMod(i: nat, d: nat, e: nat)
    requires Element(d) && Element(e) && d < e && i < e
    ensures Rot(i, d, e) < e && Rot(i, d, e) % d == i % d
  {
    ElementMultiple(d, e);
    RotModBy(i, d, e, e / d);
  }

  lemma RotModBy(i: nat, d: nat, e: nat, m: int)
    requires 0 < d && e == m * d
    ensures Rot(i, d, e) % d == i % d
  {
    DivModUnique(i + d, d, i / d + 1, i % d);
    if i + d >= e {
      assert (i / d + 1 - m) * d == i / d * d + d - m * d;
      DivModUnique(i + d - e, d, i / d + 1 - m, i % d);
    }
  }

  /** A bit of a replicated run. */
  lemma PatternBit(k: nat, r: nat, e: nat, v: nat, i: nat)
    requires Element(e) && k <= e && r < e && i < e
    requires v == Pattern(k, r, e)
    ensures Bit(v, i) == (Rot(i, r, e) < k)
  {
    hide Ror, Bit, Pow2, Replicate;
    var elt := Ror(Ones(k), r, e);
    RorBound(Ones(k), r, e);
    ElementMultiple(2, e);
    ReplicateBit(elt, e, 64 / e, i);
    DivModUnique(i, e, 0, i);
    RunBit(k, r, e, i);
  }

  lemma RepeatsBit(v: nat, d: nat, i: nat)
    requires Element(d) && Repeats(v, d) && i < 64
    ensures Bit(v, i) == Bit(v % Pow2(d), i % d)
  {
    hide Bit, Pow2, Replicate;
    ElementMultiple(2, d);
    ReplicateBit(v % Pow2(d), d, 64 / d, i);
  }

  /** A replicated proper run has no smaller period than its element. */
  lemma SmallestPeriod(k: nat, r: nat, e: nat, d: nat, v: nat)
    requires Element(e) && 0 < k < e && r < e && Element(d) && d < e
    requires v == Pattern(k, r, e)
    ensures !Repeats(v, d)
  {
    hide Pattern, Bit, Pow2, Repeats;
    if Repeats(v, d) {
      var j := NoShift(k, e, d);
      var i := Rot(j, e - r, e);
      if r == 0 {
        i := j;
      }
      assert Rot(i, r, e) == j;
      var i' := Rot(i, d, e);
      RotMod(i, d, e);
      assert Rot(i', r, e) == Rot(j, d, e);
      PatternBit(k, r, e, v, i);
      PatternBit(k, r, e, v, i');
      RepeatsBit(v, d, i);
      RepeatsBit(v, d, i');
    }
  }

  // ----- Counting bits -----

  function PopCount(x: nat): nat
  {
    if x == 0 then 0 else x % 2 + PopCount(x / 2)
  }

  lemma PopDouble(x: nat, lo: nat)
    ensures PopCount(2 * x + lo) == lo % 2 + PopCount(x + lo / 2)
  {
    var y := 2 * x + lo;
    DivModUnique(y, 2, x + lo / 2, lo % 2);
  }

  /** `hi` above `m` lower bits. */
  function Raised(hi: nat, m: nat): (r: nat)
  {
    hi * Pow2(m)
  }

  lemma RaisedStep(hi: nat, m: nat)
    requires 0 < m
    ensures Raised(hi, m) == 2 * Raised(hi, m - 1)
  {
    assert Pow2(m) == 2 * Pow2(m - 1);
    hide Pow2;
    Swap(hi, Pow2(m - 1));
  }

  lemma Swap(a: int, p: int)
    ensures a * (2 * p) == 2 * (a * p)
  {
  }

  /** Dropping the last bit takes the same count from a number and from the bits added to it. */
  lemma PopHalf(x: nat, lo: nat, m: nat) returns (half: nat)
    requires 0 < m && lo < Pow2(m)
    ensures half < Pow2(m - 1)
    ensures PopCount(2 * x + lo) - PopCount(lo) == PopCount(x + half) - PopCount(half)
  {
    half := lo / 2;
    hide PopCount;
    PopDouble(x, lo);
    PopDouble(0, lo);
  }

  lemma RaisedZero(hi: nat)
    ensures Raised(hi, 0) == hi && Pow2(0) == 1 && PopCount(0) == 0
  {
  }

  lemma {:induction false} PopRaised(hi: nat, lo: nat, m: nat)
    requires lo < Pow2(m)
    ensures PopCount(Raised(hi, m) + lo) == PopCount(hi) + PopCount(lo)
    decreases m
  {
    hide Pow2, PopCount, Raised;
    if m == 0 {
      RaisedZero(hi);
    } else {
      RaisedStep(hi, m);
      var half := PopHalf(Raised(hi, m - 1), lo, m);
      PopRaised(hi, half, m - 1);
    }
  }

  lemma PopSplit(hi: nat, lo: nat, m: nat)
    requires lo < Pow2(m)
    ensures hi * Pow2(m) >= 0
    ensures PopCount(hi * Pow2(m) + lo) == PopCount(hi) + PopCount(lo)
  {
    hide Pow2, PopCount;
    PopRaised(hi, lo, m);
  }

  lemma {:induction false} PopOnes(k: nat)
    ensures PopCount(Ones(k)) == k
  {
    if k > 0 {
      PopOnes(k - 1);
      assert Ones(k) == 2 * Ones(k - 1) + 1;
    }
  }

  lemma {:induction false} PopBounds(x: nat, e: nat)
    requires x < Pow2(e)
    ensures PopCount(x) <= e
    ensures PopCount(x) == 0 ==> x == 0
    ensures PopCount(x) == e ==> x == Ones(e)
  {
    if e > 0 {
      PopBounds(x / 2, e - 1);
    }
  }

  lemma RorSum(x: nat, r: nat, e: nat)
    requires x < Pow2(e) && r <= e
    ensures x / Pow2(r) < Pow2(e - r)
    ensures Ror(x, r, e) == (x % Pow2(r)) * Pow2(e - r) + x / Pow2(r)
  {
    hide Or, Pow2;
    var p, q := Pow2(r), Pow2(e - r);
    PowAdd(r, e - r);
    var hi, lo := x / p, x % p;
    QuotientBound(x, p, q);
    MultipleMod(x, q);
    OrIsSum(x * q, hi, e - r);
    OrCommutes(hi, x * q);
    assert x * q == hi * (p * q) + lo * q by { assert x == hi * p + lo; Distribute(hi, p, lo, q); }
    ScaledBound(lo, p, hi, q);
    DivModUnique(x * q + hi, p * q, hi, lo * q + hi);
  }

  lemma Distribute(hi: int, p: int, lo: int, q: int)
    ensures (hi * p + lo) * q == hi * (p * q) + lo * q
  {
    assert (hi * p) * q == hi * (p * q);
  }

  lemma ScaledBound(lo: int, p: int, hi: int, q: int)
    requires 0 <= lo < p && 0 <= hi < q
    ensures 0 <= lo * q + hi < p * q
  {
    assert (lo + 1) * q <= p * q;
  }

  lemma QuotientBound(x: nat, p: int, q: int)
    requires 0 < p && x < p * q
    ensures 0 <= x / p < q
  {
    var y := x / p;
    assert y * p <= x;
    assert y >= q ==> y * p >= q * p;
  }

  lemma MultipleMod(x: int, q: int)
    requires 0 < q
    ensures (x * q) % q == 0
  {
    DivModUnique(x * q, q, x, 0);
  }

  lemma {:induction false} OrCommutes(a: nat, b: nat)
    ensures Or(a, b) == Or(b, a)
  {
    if a != 0 && b != 0 {
      OrCommutes(a / 2, b / 2);
    }
  }

  lemma PopRun(k: nat, r: nat, e: nat)
    requires k <= e && r <= e
    ensures PopCount(Ror(Ones(k), r, e)) == k
  {
    hide Or, Pow2, Ror, PopCount;
    PowMonotone(k, e);
    var x := Ones(k);
    RorSum(x, r, e);
    PopSplit(x % Pow2(r), x / Pow2(r), e - r);
    PopSplit(x / Pow2(r), x % Pow2(r), r);
    PopOnes(k);
  }

  // ----- Patterns and their runs -----

  predicate Run(k: nat, r: nat, e: nat)
  {
    Element(e) && 0 < k < e && r < e
  }

  lemma PatternElement(k: nat, r: nat, e: nat)
    requires Run(k, r, e)
    ensures Pattern(k, r, e) % Pow2(e) == Ror(Ones(k), r, e) && Repeats(Pattern(k, r, e), e)
  {
    hide Ror, Pow2, Replicate;
    RorBound(Ones(k), r, e);
    ReplicateLow(Ror(Ones(k), r, e), e, 64 / e);
  }

  /** The run, its rotation and its element size are all determined by the pattern. */
  lemma PatternUnique(k: nat, r: nat, e: nat, k': nat, r': nat, e': nat)
    requires Run(k, r, e) && Run(k', r', e') && Pattern(k, r, e) == Pattern(k', r', e')
    ensures k == k' && r == r' && e == e'
  {
    hide Ror, Pow2, Pattern, Repeats, PopCount, Bit;
    PatternElement(k, r, e);
    PatternElement(k', r', e');
    if e < e' {
      SmallestPeriod(k', r', e', e, Pattern(k, r, e));
    } else if e' < e {
      SmallestPeriod(k, r, e, e', Pattern(k, r, e));
    } else {
      PopRun(k, r, e);
      PopRun(k', r', e);
      if r != r' {
        var d := if r < r' then r' - r else r' - r + e;
        var j := NoShift(k, e, d);
        var i := if j >= r then j - r else j - r + e;
        PatternBit(k, r, e, Pattern(k, r, e), i);
        PatternBit(k, r', e, Pattern(k, r, e), i);
      }
    }
  }

  lemma PatternProper(k: nat, r: nat, e: nat)
    requires Run(k, r, e)
    ensures Pattern(k, r, e) != 0 && Pattern(k, r, e) != Ones(64)
  {
    hide Ror, Pow2, Pattern, Bit, Ones;
    var i, i' := if r == 0 then 0 else e - r, if r == 0 then e - 1 else e - 1 - r;
    PatternBit(k, r, e, Pattern(k, r, e), i);
    PatternBit(k, r, e, Pattern(k, r, e), i');
    assert Rot(i, r, e) == 0 && Rot(i', r, e) == e - 1;
    BitOfZero(i);
    BitOnes(64, i');
  }

  lemma {:induction false} ReplicateExtremes(e: nat, count: nat)
    ensures Replicate(0, e, count) == 0
    ensures Replicate(Ones(e), e, count) == Ones(e * count)
  {
    if count > 0 {
      hide Pow2;
      ReplicateExtremes(e, count - 1);
      assert e * count == e * (count - 1) + e;
      PowAdd(e * (count - 1), e);
      Distribute(Pow2(e * (count - 1)), 1, -1, Pow2(e));
    } else {
      assert e * count == 0;
    }
  }

  /** A pattern that repeats is a rotated run if its element is its own number of ones, rotated. */
  lemma FoundRun(v: nat, e: nat, r: nat)
    requires Element(e) && Repeats(v, e) && v != 0 && v != Ones(64) && r < e
    requires Ror(Ones(PopCount(Low(v, e))), r, e) == Low(v, e)
    ensures Run(PopCount(Low(v, e)), r, e) && v == Pattern(PopCount(Low(v, e)), r, e)
  {
    hide Ror, Pow2, Replicate, PopCount, Ones;
    var elt := Low(v, e);
    PopBounds(elt, e);
    ElementMultiple(2, e);
    ReplicateExtremes(e, 64 / e);
  }

  /** If no rotation of that many ones is the element, and no smaller size repeats, there is no run at all. */
  lemma NoRun(v: nat, e: nat, k: nat, r: nat, e': nat)
    requires Element(e) && Repeats(v, e) && forall d: nat | Element(d) && d < e :: !Repeats(v, d)
    requires forall q: nat | q < e :: Ror(Ones(PopCount(Low(v, e))), q, e) != Low(v, e)
    requires Run(k, r, e')
    ensures v != Pattern(k, r, e')
  {
    hide Ror, Pow2, Pattern, PopCount, Ones, Repeats;
    if v == Pattern(k, r, e') {
      PatternElement(k, r, e');
      assert Low(v, e') == Ror(Ones(k), r, e');
      if e < e' {
        SmallestPeriod(k, r, e', e, v);
      } else {
        PopRun(k, r, e');
      }
    }
  }

  // ----- Patterns and their encodings -----

  function N(e: nat): nat
  {
    if e == 64 then 1 else 0
  }

  /** The leading ones of imms that tell the element size, of six bits. */
  function SizeBits(e: int): nat
  {
    (-2 * e) % 64
  }

  function Imms(k: nat, e: nat): nat
    requires 0 < k
  {
    SizeBits(e) + (k - 1)
  }

  lemma {:induction false} HighestBit(x: nat, h: nat)
    requires Pow2(h) <= x < 2 * Pow2(h)
    ensures HighestSetBit(x) == h
  {
    if h > 0 {
      HighestBit(x / 2, h - 1);
    }
  }

  lemma {:induction false} HighestBounds(x: nat)
    requires 0 < x
    ensures Pow2(HighestSetBit(x)) <= x < 2 * Pow2(HighestSetBit(x))
  {
    if x >= 2 {
      HighestBounds(x / 2);
    }
  }

  function Log(e: nat): nat
  {
    if e == 2 then 1 else if e == 4 then 2 else if e == 8 then 3 else if e == 16 then 4 else if e == 32 then 5 else 6
  }

  /** The element size that N:NOT(imms) selects, and the run length that imms holds within it. */
  lemma SizeOf(n: nat, imms: nat, e: nat)
    requires n < 2 && imms < 64 && Element(e)
    ensures Pow2(HighestSetBit(64 * n + (63 - imms))) == e && imms % e != e - 1
       <==> exists k :: 0 < k < e && n == N(e) && imms == Imms(k, e)
  {
    var x := 64 * n + (63 - imms);
    PowTable();
    if x > 0 {
      HighestBounds(x);
    }
    if e <= x < 2 * e {
      HighestBit(x, Log(e));
      var k := imms % e + 1;
      SizeSplit(n, imms, e);
      assert k < e ==> imms == Imms(k, e);
    }
    forall k | 0 < k < e && n == N(e) && imms == Imms(k, e)
      ensures e <= x < 2 * e && imms % e == k - 1
    {
      SizeJoin(n, imms, e, k);
    }
  }

  /** The bits of imms above the run length, as a multiple of the element size. */
  function SizeQuotient(e: nat): nat
  {
    if e == 2 then 30 else if e == 4 then 14 else if e == 8 then 6 else if e == 16 then 2 else 0
  }

  lemma SizeTable(e: nat)
    requires Element(e)
    ensures SizeBits(e) == SizeQuotient(e) * e
    ensures SizeBits(e) == if e == 64 then 0 else 64 - 2 * e
  {
  }

  lemma SizeSplit(n: nat, imms: nat, e: nat)
    requires n < 2 && imms < 64 && Element(e) && e <= 64 * n + (63 - imms) < 2 * e
    ensures n == N(e) && imms == SizeBits(e) + imms % e
  {
    hide SizeBits, SizeQuotient;
    SizeTable(e);
    DivModUnique(imms, e, SizeQuotient(e), imms - SizeBits(e));
  }

  lemma SizeJoin(n: nat, imms: nat, e: nat, k: nat)
    requires Element(e) && 0 < k < e && n == N(e) && imms == Imms(k, e)
    ensures imms < 64 && e <= 64 * n + (63 - imms) < 2 * e && imms % e == k - 1
  {
    hide SizeBits, SizeQuotient;
    SizeTable(e);
    DivModUnique(imms, e, SizeQuotient(e), k - 1);
  }

  // ----- Two widths -----

  /** The 64 bit pattern that the code searches: a 32 bit pattern is doubled. */
  function Wide(p: nat, width: nat): nat
  {
    if width == 32 then p * 0x1_0000_0001 else p
  }

  predicate Width(width: nat)
  {
    width == 32 || width == 64
  }

  lemma Halves(elt: nat, e: nat)
    requires Element(e) && e <= 32
    ensures Replicate(elt, e, 64 / e) == Wide(Replicate(elt, e, 32 / e), 32)
  {
    hide Pow2, Replicate;
    PowTable();
    ReplicateAdd(elt, e, 32 / e, 32 / e);
    assert 32 / e + 32 / e == 64 / e && e * (32 / e) == 32;
  }

  lemma {:induction false} ReplicateAdd(elt: nat, e: nat, a: nat, b: nat)
    ensures Replicate(elt, e, a + b) == Replicate(elt, e, a) * Pow2(e * b) + Replicate(elt, e, b)
  {
    if b == 0 {
      assert e * b == 0;
    } else {
      hide Pow2;
      ReplicateAdd(elt, e, a, b - 1);
      assert e * b == e * (b - 1) + e;
      PowAdd(e * (b - 1), e);
      assert a + b - 1 == a + (b - 1);
      var x, p, q, y := Replicate(elt, e, a), Pow2(e * (b - 1)), Pow2(e), Replicate(elt, e, b - 1);
      assert (x * p + y) * q == x * (p * q) + y * q by { Distribute(x, p, y, q); }
    }
  }

  /** A doubled pattern repeats every 32 bits, so its run lives in elements of at most 32 bits. */
  lemma DoubledSize(k: nat, r: nat, e: nat, p: nat)
    requires Run(k, r, e) && p < Pow2(32) && Pattern(k, r, e) == Wide(p, 32)
    ensures e <= 32
  {
    hide Pow2, Pattern, Replicate;
    if e == 64 {
      ReplicateTwice(p);
      DivModUnique(Wide(p, 32), Pow2(32), p, p) by { PowTable(); }
      SmallestPeriod(k, r, e, 32, Wide(p, 32));
    }
  }

  lemma ReplicateTwice(p: nat)
    requires p < Pow2(32)
    ensures Replicate(p, 32, 2) == Wide(p, 32)
  {
    PowTable();
    assert Replicate(p, 32, 1) == p;
  }

  /** At either width, an encoding decodes to exactly the pattern of its run. */
  lemma DecodesRun(n: nat, immr: nat, imms: nat, width: nat, p: nat) returns (k: nat, r: nat, e: nat)
    requires Width(width) && Decodes(n, immr, imms, width, p)
    ensures Run(k, r, e) && Pattern(k, r, e) == Wide(p, width)
    ensures n == N(e) && imms == Imms(k, e) && r == immr % e
  {
    hide Pow2, Ror, Replicate;
    var h := HighestSetBit(64 * n + (63 - imms));
    e := SizeElement(n, imms);
    SizeOf(n, imms, e);
    k := imms % e + 1;
    assert 0 < k < e;
    SizeOfRun(n, imms, e);
    r := immr % e;
    if width == 32 {
      Halves(Ror(Ones(k), r, e), e);
    }
  }

  lemma SizeElement(n: nat, imms: nat) returns (e: nat)
    requires n < 2 && imms < 64 && 1 <= HighestSetBit(64 * n + (63 - imms))
    ensures e == Pow2(HighestSetBit(64 * n + (63 - imms))) && Element(e)
    ensures n == 0 ==> e <= 32
  {
    var x := 64 * n + (63 - imms);
    var h := HighestSetBit(x);
    hide Pow2, HighestSetBit;
    HighestBounds(x);
    SmallPower(h);
    e := Pow2(h);
  }

  lemma SmallPower(h: nat)
    requires 1 <= h && Pow2(h) < 128
    ensures Element(Pow2(h)) && (Pow2(h) < 64 ==> Pow2(h) <= 32)
  {
    hide Pow2;
    PowTable();
    if h >= 7 {
      PowMonotone(7, h);
    }
  }

  lemma SizeOfRun(n: nat, imms: nat, e: nat)
    requires exists k :: 0 < k < e && n == N(e) && imms == Imms(k, e)
    requires Element(e)
    ensures n == N(e) && imms == Imms(imms % e + 1, e)
  {
    var k :| 0 < k < e && n == N(e) && imms == Imms(k, e);
    SizeJoin(n, imms, e, k);
  }

  lemma RunDecodes(k: nat, r: nat, e: nat, width: nat, p: nat)
    requires Width(width) && Run(k, r, e) && p < Pow2(width) && Pattern(k, r, e) == Wide(p, width)
    ensures Decodes(N(e), r, Imms(k, e), width, p)
  {
    hide Pow2, Ror, Replicate;
    SizeJoin(N(e), Imms(k, e), e, k);
    SizeOf(N(e), Imms(k, e), e);
    if width == 32 {
      hide Pattern;
      DoubledSize(k, r, e, p);
      Halves(Ror(Ones(k), r, e), e);
    }
    LenPositive(N(e), Imms(k, e), e);
    DivModUnique(r, e, 0, r);
  }

  lemma LenPositive(n: nat, imms: nat, e: nat)
    requires n < 2 && imms < 64 && e >= 2 && Pow2(HighestSetBit(64 * n + (63 - imms))) == e
    ensures 1 <= HighestSetBit(64 * n + (63 - imms))
  {
  }

  // ----- The encoder -----

  predicate InRange(n: int, width: nat)
  {
    if width == 64 then -0x8000_0000_0000_0000 <= n < 0x1_0000_0000_0000_0000
    else -0x8000_0000 <= n < 0x1_0000_0000
  }

  function Value(n: int, width: nat): nat
  {
    if width == 64 then n % 0x1_0000_0000_0000_0000 else n % 0x1_0000_0000
  }

  ghost predicate Encodable(width: nat, p: nat)
    requires Width(width)
  {
    exists n, immr, imms :: Decodes(n, immr, imms, width, p)
  }

  /** The fields of the 13 bit immediate where the instruction has them. */
  function FieldN(enc: nat): nat
  {
    enc / 0x40_0000 % 2
  }

  function FieldR(enc: nat): nat
  {
    enc / 0x1_0000 % 64
  }

  function FieldS(enc: nat): nat
  {
    enc / 0x400 % 64
  }

  predicate Holds(enc: nat, k: nat, r: nat, e: nat)
    requires Run(k, r, e)
  {
    FieldN(enc) == N(e) && FieldR(enc) == r && FieldS(enc) == Imms(k, e)
  }

  /** Any other encoding of the same pattern differs only in bits of immr that the size ignores. */
  lemma EncodingUnique(n: nat, immr: nat, imms: nat, n': nat, immr': nat, imms': nat, width: nat, p: nat)
    requires Width(width) && Decodes(n, immr, imms, width, p) && Decodes(n', immr', imms', width, p)
    ensures n == n' && imms == imms'
    ensures Pow2(HighestSetBit(64 * n + (63 - imms))) > 0
    ensures immr % Pow2(HighestSetBit(64 * n + (63 - imms))) == immr' % Pow2(HighestSetBit(64 * n + (63 - imms)))
  {
    hide Pow2, Pattern, Decodes;
    var k, r, e := DecodesRun(n, immr, imms, width, p);
    var k', r', e' := DecodesRun(n', immr', imms', width, p);
    PatternUnique(k, r, e, k', r', e');
    DecodesBounds(n, immr, imms, width, p);
    SizeOf(n, imms, e);
  }

  lemma DecodesBounds(n: nat, immr: nat, imms: nat, width: nat, p: nat)
    requires Width(width) && Decodes(n, immr, imms, width, p)
    ensures n < 2 && immr < 64 && imms < 64
  {
  }

  /** The value of the search: the shortest element that the pattern repeats. */
  method ElementOf(v: nat) returns (e: nat)
    requires v < Pow2(64)
    ensures Element(e) && Repeats(v, e)
    ensures forall d: nat | Element(d) && d < e :: !Repeats(v, d)
  {
    hide Or, Pow2, Replicate;
    e := 2;
    while e < 64
      invariant Element(e)
      invariant forall d: nat | Element(d) && d < e :: !Repeats(v, d)
    {
      var elt := Low(v, e);
      var rep := elt;
      OneCopy(elt, e);
      for c := 1 to 64 / e
        invariant rep == Replicate(elt, e, c)
      {
        NextCopy(elt, e, c);
        rep := Or(Shl(rep, e), elt);
      }
      if rep == v {
        return;
      }
      e := 2 * e;
    }
    OneCopy(v, 64);
    DivModUnique(v, Pow2(64), 0, v);
  }

  lemma OneCopy(elt: nat, e: nat)
    ensures Replicate(elt, e, 1) == elt
  {
    assert Replicate(elt, e, 0) == 0;
  }

  lemma NextCopy(v: nat, e: nat, c: nat)
    requires v < Pow2(e)
    ensures Or(Shl(Replicate(v, e, c), e), v) == Replicate(v, e, c + 1)
  {
    hide Or, Pow2;
    MultipleMod(Replicate(v, e, c), Pow2(e));
    OrIsSum(Shl(Replicate(v, e, c), e), v, e);
  }

  lemma RunBounds(k: nat, r: nat, e: nat)
    requires Run(k, r, e)
    ensures N(e) < 2 && r < 64 && Imms(k, e) < 64
    ensures Or(SizeBits(e), k - 1) == Imms(k, e)
  {
    hide Or, Pow2, SizeBits, SizeQuotient;
    SizeJoin(N(e), Imms(k, e), e, k);
    SizeTable(e);
    PowTable();
    OrOnto(SizeQuotient(e), SizeBits(e), k - 1, Log(e), e);
  }

  /** The three fields in their places of the instruction word. */
  lemma FieldsOf(n: nat, immr: nat, imms: nat)
    requires n < 2 && immr < 64 && imms < 64
    ensures var enc := Or(Or(n * 0x40_0000, immr * 0x1_0000), imms * 0x400);
      enc == n * 0x40_0000 + immr * 0x1_0000 + imms * 0x400
      && FieldN(enc) == n && FieldR(enc) == immr && FieldS(enc) == imms
  {
    hide Or, Pow2;
    PowTable();
    OrOnto(n, n * 0x40_0000, immr * 0x1_0000, 22, 0x40_0000);
    OrOnto(n * 0x40 + immr, n * 0x40_0000 + immr * 0x1_0000, imms * 0x400, 16, 0x1_0000);
    var enc := n * 0x40_0000 + immr * 0x1_0000 + imms * 0x400;
    DivModUnique(enc, 0x400, n * 0x1000 + immr * 0x40 + imms, 0);
    DivModUnique(n * 0x1000 + immr * 0x40 + imms, 64, n * 0x40 + immr, imms);
    DivModUnique(enc, 0x1_0000, n * 0x40 + immr, imms * 0x400);
    DivModUnique(n * 0x40 + immr, 64, n, immr);
    DivModUnique(enc, 0x40_0000, n, immr * 0x1_0000 + imms * 0x400);
  }

  /** A 32 bit pattern in both halves of 64 bits. */
  lemma Doubled(p: nat)
    requires p < 0x1_0000_0000
    ensures Or(p, p * 0x1_0000_0000) == Wide(p, 32)
  {
    hide Or;
    PowTable();
    OrCommutes(p, p * 0x1_0000_0000);
    OrAligned(p * 0x1_0000_0000, p, 32, 0x1_0000_0000);
  }

  lemma NotEncodable(width: nat, p: nat)
    requires Width(width) && forall k, r, e | Run(k, r, e) :: Pattern(k, r, e) != Wide(p, width)
    ensures !Encodable(width, p)
  {
    hide Pattern, Decodes;
    if Encodable(width, p) {
      var n, immr, imms :| Decodes(n, immr, imms, width, p);
      var k, r, e := DecodesRun(n, immr, imms, width, p);
    }
  }

  /**
    The N:immr:imms field of a logical instruction for `n`, sound and complete: there is a result
    exactly if `n` is in range and some encoding decodes to its pattern, and then the result does.
    The 32 bit form has N = 0, since nothing else decodes there.
   */
  method Imm13(n: int, r64: bool) returns (enc: Option<nat>)
    ensures var width := if r64 then 64 else 32;
      && (enc.Some? <==> InRange(n, width) && Encodable(width, Value(n, width)))
      && (enc.Some? ==> Decodes(FieldN(enc.value), FieldR(enc.value), FieldS(enc.value), width, Value(n, width)))
      && (enc.Some? ==> enc.value < 0x80_0000 && enc.value % 0x400 == 0)
  {
    hide Pow2, Or, Pattern, Decodes, Encodable, Repeats, PopCount, Ror, Ones;
    ghost var width := if r64 then 64 else 32;
    if !(if r64 then -0x8000_0000_0000_0000 <= n < 0x1_0000_0000_0000_0000 else -0x8000_0000 <= n < 0x1_0000_0000) {
      return None;
    }
    var v: nat;
    if r64 {
      v := n % 0x1_0000_0000_0000_0000;
    } else {
      v := n % 0x1_0000_0000;
      Doubled(v);
      v := Or(v, v * 0x1_0000_0000);
    }
    enc := Search(v);
    PowTable();
    if enc.None? {
      NotEncodable(width, Value(n, width));
    } else {
      var k, r, e :| Run(k, r, e) && v == Pattern(k, r, e) && Holds(enc.value, k, r, e);
      RunDecodes(k, r, e, width, Value(n, width));
      EncodableBy(FieldN(enc.value), FieldR(enc.value), FieldS(enc.value), width, Value(n, width));
    }
  }

  lemma EncodableBy(n: nat, immr: nat, imms: nat, width: nat, p: nat)
    requires Width(width) && Decodes(n, immr, imms, width, p)
    ensures Encodable(width, p)
  {
  }

  /** The search for a run in a 64 bit pattern. */
  method Search(v: nat) returns (enc: Option<nat>)
    requires v < 0x1_0000_0000_0000_0000
    ensures enc.None? ==> forall k, r, e | Run(k, r, e) :: Pattern(k, r, e) != v
    ensures enc.Some? ==> exists k, r, e :: Run(k, r, e) && v == Pattern(k, r, e) && Holds(enc.value, k, r, e)
    ensures enc.Some? ==> enc.value < 0x80_0000 && enc.value % 0x400 == 0
  {
    hide Pow2, Or, Pattern, Repeats, PopCount, FieldN, FieldR, FieldS, SizeBits;
    PowTable();
    if v == 0 || v == 0xFFFF_FFFF_FFFF_FFFF {
      forall k, r, e | Run(k, r, e)
        ensures Pattern(k, r, e) != v
      {
        PatternProper(k, r, e);
      }
      return None;
    }
    var e := ElementOf(v);
    var elt := Low(v, e);
    var k := PopCount(elt);
    var ones := Ones(k);
    var r := 0;
    while r < e && Or(Shr(ones, r), Shl(ones, e - r)) % Pow2(e) != elt
      invariant r <= e
      invariant forall q: nat | q < r :: Ror(ones, q, e) != elt
    {
      r := r + 1;
    }
    if r == e {
      forall k, r, e' | Run(k, r, e')
        ensures Pattern(k, r, e') != v
      {
        NoRun(v, e, k, r, e');
      }
      return None;
    }
    FoundRun(v, e, r);
    var imms := Or(SizeBits(e), k - 1);
    RunBounds(k, r, e);
    FieldsOf(if e == 64 then 1 else 0, r, imms);
    enc := Some(Or(Or((if e == 64 then 1 else 0) * 0x40_0000, r * 0x1_0000), imms * 0x400));
  }
}
