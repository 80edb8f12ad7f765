/**
  Values scattered over the bit fields of an instruction word. A format lists segments; `Scatter`
  is the union that a linker ORs into the word.
 */
module Fields {
  import opened Bits

  /** Bits [from, from + len) of a value live in bits [to, to + len) of the word. */
  datatype Seg = Seg(from: nat, to: nat, len: nat)

  type Format = seq<Seg>

  function Slice(n: int, from: nat, len: nat): (s: nat)
    ensures s < Pow2(len)
  {
    (n / Pow2(from)) % Pow2(len)
  }

  function Chunk(s: Seg, n: int): nat
  {
    Slice(n, s.from, s.len) * Pow2(s.to)
  }

  function Scatter(fmt: Format, n: int): nat
  {
    if fmt == [] then 0 else Or(Scatter(fmt[..|fmt| - 1], n), Chunk(fmt[|fmt| - 1], n))
  }

  predicate Apart(lo: nat, len: nat, s: Seg)
  {
    lo + len <= s.to || s.to + s.len <= lo
  }

  predicate Clear(fmt: Format, w: nat)
  {
    forall s | s in fmt :: Slice(w, s.to, s.len) == 0
  }

  predicate WellFormed(fmt: Format)
  {
    forall i, j | 0 <= i < j < |fmt| :: Apart(fmt[i].to, fmt[i].len, fmt[j])
  }

  // ----- One chunk -----

  lemma ChunkInside(v: nat, to: nat, len: nat)
    requires v < Pow2(len)
    ensures v * Pow2(to) >= 0
    ensures Slice(v * Pow2(to), to, len) == v
  {
    DivModUnique(v * Pow2(to), Pow2(to), v, 0);
    DivModUnique(v, Pow2(len), 0, v);
  }

  lemma ChunkOutside(v: nat, s: Seg, lo: nat, len: nat)
    requires v < Pow2(s.len) && Apart(lo, len, s)
    ensures v * Pow2(s.to) >= 0
    ensures Slice(v * Pow2(s.to), lo, len) == 0
  {
    hide Pow2, Bit;
    var x := v * Pow2(s.to);
    assert Pow2(len) > 0;
    forall i: nat | i < len
      ensures Bit(Slice(x, lo, len), i) == Bit(0, i)
    {
      BitMod(x / Pow2(lo), len, i);
      BitShr(x, lo, i);
      BitShl(v, s.to, i + lo);
      BitOfZero(i);
      if i + lo >= s.to {
        BitAbove(v, s.len, i + lo - s.to);
      }
    }
    BitsEqual(Slice(x, lo, len), 0, len);
  }

  lemma OrSlice(a: nat, b: nat, lo: nat, len: nat)
    ensures Slice(Or(a, b), lo, len) == Or(Slice(a, lo, len), Slice(b, lo, len))
  {
    OrField(a, b, lo, len);
  }

  /** Adjacent slices join. */
  lemma SliceJoin(n: int, from: nat, a: nat, b: nat)
    ensures Slice(n, from, a + b) == Slice(n, from, a) + Slice(n, from + a, b) * Pow2(a)
  {
    hide Pow2;
    PowAdd(from, a);
    PowAdd(a, b);
    var p, q, r := Pow2(from), Pow2(a), Pow2(b);
    var x := n / p;
    DivDiv(n, p, q);
    SplitMod(x, q, r);
  }

  lemma SliceOfZero(from: nat, len: nat)
    ensures Slice(0, from, len) == 0
  {
    hide Pow2;
    DivModUnique(0, Pow2(from), 0, 0);
    DivModUnique(0, Pow2(len), 0, 0);
  }

  lemma SliceLow(n: int, len: nat)
    ensures Slice(n, 0, len) == n % Pow2(len)
  {
  }

  lemma SliceOf(n: int, from: nat, len: nat)
    ensures Slice(n, from, len) == n / Pow2(from) % Pow2(len)
  {
  }

  /** The inner remainder of a double split stays below the product. */
  lemma InnerBound(r: int, p: int, q: int, low: int)
    requires 0 <= r < q && 0 <= low < p
    ensures 0 <= r * p + low < p * q
  {
    assert (r + 1) * p <= q * p;
    assert (r + 1) * p == r * p + p;
    assert 0 <= r * p;
  }

  lemma DivDiv(n: int, p: int, q: int)
    requires 0 < p && 0 < q
    ensures p * q > 0 && n / (p * q) == n / p / q
  {
    var x, low := n / p, n % p;
    var y, r := x / q, x % q;
    InnerBound(r, p, q, low);
    Regroup(y, q, r, p);
    DivModUnique(n, p * q, y, r * p + low);
  }

  lemma Regroup(z: int, r: int, m: int, q: int)
    ensures (z * r + m) * q == z * (q * r) + m * q
  {
    assert (z * r) * q == z * (q * r);
  }

  lemma SplitMod(x: int, q: int, r: int)
    requires 0 < q && 0 < r
    ensures q * r > 0 && x % (q * r) == x % q + (x / q) % r * q
  {
    var y := x / q;
    var z, m := y / r, y % r;
    Regroup(z, r, m, q);
    InnerBound(m, q, r, x % q);
    DivModUnique(x, q * r, z, m * q + x % q);
  }

  // ----- A whole format -----

  /** A range that no segment touches is clear in the scattered word. */
  lemma {:induction false} ScatterOutside(fmt: Format, n: int, lo: nat, len: nat)
    requires forall s | s in fmt :: Apart(lo, len, s)
    ensures Slice(Scatter(fmt, n), lo, len) == 0
  {
    if fmt == [] {
      DivModUnique(0, Pow2(lo), 0, 0);
      DivModUnique(0, Pow2(len), 0, 0);
    } else {
      var last := fmt[|fmt| - 1];
      ScatterOutside(fmt[..|fmt| - 1], n, lo, len);
      ChunkOutside(Slice(n, last.from, last.len), last, lo, len);
      OrSlice(Scatter(fmt[..|fmt| - 1], n), Chunk(last, n), lo, len);
    }
  }

  /** Each segment of the scattered word holds its slice of the value. */
  lemma {:induction false} ScatterInside(fmt: Format, n: int, k: nat)
    requires WellFormed(fmt) && k < |fmt|
    ensures Slice(Scatter(fmt, n), fmt[k].to, fmt[k].len) == Slice(n, fmt[k].from, fmt[k].len)
  {
    var m := |fmt| - 1;
    var last, front, s := fmt[m], fmt[..m], fmt[k];
    OrSlice(Scatter(front, n), Chunk(last, n), s.to, s.len);
    if k < m {
      ScatterInside(front, n, k);
      assert Apart(s.to, s.len, last);
      ChunkOutside(Slice(n, last.from, last.len), last, s.to, s.len);
    } else {
      ScatterOutside(front, n, s.to, s.len);
      ChunkInside(Slice(n, s.from, s.len), s.to, s.len);
    }
  }

  /** Reading segment k of the patched word gives its slice of the value. */
  lemma PatchedField(fmt: Format, w: nat, n: int, k: nat)
    requires WellFormed(fmt) && Clear(fmt, w) && k < |fmt|
    ensures Slice(Or(w, Scatter(fmt, n)), fmt[k].to, fmt[k].len) == Slice(n, fmt[k].from, fmt[k].len)
  {
    ScatterInside(fmt, n, k);
    OrSlice(w, Scatter(fmt, n), fmt[k].to, fmt[k].len);
    assert fmt[k] in fmt;
  }

  lemma WrapLow(v: int, half: int)
    requires -half <= v < half
    ensures Wrap(v % (2 * half), half) == v
  {
    if v < 0 {
      DivModUnique(v, 2 * half, -1, v + 2 * half);
      DivModUnique(v + 3 * half, 2 * half, 1, v + half);
    } else {
      DivModUnique(v, 2 * half, 0, v);
      DivModUnique(v + half, 2 * half, 0, v + half);
    }
  }

  /** A signed value in one contiguous field reads back. */
  lemma SignedField(w: nat, v: int, to: nat, len: nat, half: int)
    requires 0 < len && half == Pow2(len - 1) && -half <= v < half
    requires Clear([Seg(0, to, len)], w)
    ensures Wrap(Slice(Or(w, Scatter([Seg(0, to, len)], v)), to, len), half) == v
  {
    hide Slice, Scatter, Or, Wrap;
    assert Pow2(len) == 2 * half;
    PatchedField([Seg(0, to, len)], w, v, 0);
    SliceLow(v, len);
    WrapLow(v, half);
  }

  /** A signed value in two fields, the low `a` bits at `lo` and the other `b` bits at `hi`, reads back. */
  lemma SignedPair(w: nat, v: int, lo: nat, a: nat, hi: nat, b: nat, half: int)
    requires 0 < b && half == Pow2(a + b - 1) && -half <= v < half
    requires WellFormed([Seg(0, lo, a), Seg(a, hi, b)]) && Clear([Seg(0, lo, a), Seg(a, hi, b)], w)
    ensures var x := Or(w, Scatter([Seg(0, lo, a), Seg(a, hi, b)], v));
      Wrap(Slice(x, hi, b) * Pow2(a) + Slice(x, lo, a), half) == v
  {
    hide Slice, Scatter, Or, Wrap, WellFormed, Clear;
    assert Pow2(a + b) == 2 * half;
    PatchedField([Seg(0, lo, a), Seg(a, hi, b)], w, v, 0);
    PatchedField([Seg(0, lo, a), Seg(a, hi, b)], w, v, 1);
    SliceJoin(v, 0, a, b);
    SliceLow(v, a + b);
    WrapLow(v, half);
  }

  /** A range apart from the format reads the same before and after. */
  lemma PatchedOther(fmt: Format, w: nat, n: int, lo: nat, len: nat)
    requires forall s | s in fmt :: Apart(lo, len, s)
    ensures Slice(Or(w, Scatter(fmt, n)), lo, len) == Slice(w, lo, len)
  {
    ScatterOutside(fmt, n, lo, len);
    OrSlice(w, Scatter(fmt, n), lo, len);
  }

  predicate Covered(fmt: Format, i: nat)
  {
    exists s :: s in fmt && s.to <= i < s.to + s.len
  }

  lemma BitOfSlice(x: nat, i: nat)
    ensures Bit(Slice(x, i, 1), 0) == Bit(x, i)
  {
    hide Bit, Pow2;
    BitShr(x, i, 0);
    var q: nat := x / Pow2(i);
    BitMod(q, 1, 0);
  }

  /** Patching leaves every bit outside the format alone, whatever the word held. */
  lemma PatchedElsewhere(fmt: Format, w: nat, n: int, i: nat)
    requires !Covered(fmt, i)
    ensures Bit(Or(w, Scatter(fmt, n)), i) == Bit(w, i)
  {
    hide Bit, Slice, Or, Scatter;
    ScatterOutside(fmt, n, i, 1);
    BitOr(w, Scatter(fmt, n), i);
    BitOfSlice(Scatter(fmt, n), i);
    BitOfZero(0);
  }

  lemma ChunkBound(v: nat, len: nat, to: nat, width: nat)
    requires v < Pow2(len) && to + len <= width
    ensures v * Pow2(to) < Pow2(width)
  {
    hide Pow2;
    var p, q := Pow2(to), Pow2(len);
    PowAdd(len, to);
    PowMonotone(len + to, width);
    MulBelow(v, q, p);
  }

  lemma MulBelow(v: nat, q: int, p: int)
    requires v < q && 0 < p
    ensures v * p < q * p
  {
    assert (q - v) * p > 0;
  }

  lemma {:induction false} ScatterBound(fmt: Format, n: int, width: nat)
    requires forall s | s in fmt :: s.to + s.len <= width
    ensures Scatter(fmt, n) < Pow2(width)
  {
    if fmt != [] {
      var last := fmt[|fmt| - 1];
      ScatterBound(fmt[..|fmt| - 1], n, width);
      ChunkBound(Slice(n, last.from, last.len), last.len, last.to, width);
      OrBound(Scatter(fmt[..|fmt| - 1], n), Chunk(last, n), width);
    }
  }
}
