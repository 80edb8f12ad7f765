/**
  The relocation kinds of jita/loongarch64/patch.py against the instruction formats of the
  LoongArch Reference Manual, Volume 1.
 */
module Loong64Patch {
  import opened Bits
  import opened Bytes
  import opened Fields
  import opened Relocation
  import opened Wrappers

  datatype Kind = B16 | B21 | B26 | Pcrel20 | Pcala | Call36

  function Size(k: Kind): nat
  {
    if k == Pcala || k == Call36 then 8 else 4
  }

  // ----- The fields that the linker writes -----

  const OFFS16: Format := [Seg(0, 10, 16)]
  const OFFS21: Format := [Seg(0, 10, 16), Seg(16, 0, 5)]
  const OFFS26: Format := [Seg(0, 10, 16), Seg(16, 0, 10)]
  const SI20: Format := [Seg(0, 5, 20)]
  const SI12: Format := [Seg(0, 10, 12)]

  function SplitPcala(target: int, place: int): Option<(int, int)>
  {
    var hi := (target + 0x800) / 0x1000 - place / 0x1000;
    if !(-0x8_0000 <= hi < 0x8_0000) then None else Some((hi, FlipExtend(target, 0x800)))
  }

  function SplitCall36(n: int): Option<(int, int)>
  {
    var hi := (n + 0x2_0000) / 0x4_0000;
    if !(-0x8_0000 <= hi < 0x8_0000) then None else Some((hi, (n - hi * 0x4_0000) / 4))
  }

  /** The format of each word. */
  function Shape(k: Kind): (shape: seq<Format>)
    ensures 4 * |shape| == Size(k) && forall fmt | fmt in shape :: FitsWord(fmt)
  {
    match k
    case B16 => [OFFS16]
    case B21 => [OFFS21]
    case B26 => [OFFS26]
    case Pcrel20 => [SI20]
    case Pcala => [SI20, SI12]
    case Call36 => [SI20, OFFS16]
  }

  /** 2**(bits + 1) for a branch of `bits` bits. */
  function BranchLimit(k: Kind): int
    requires Size(k) == 4
  {
    match k
    case B16 => 0x2_0000
    case B21 => 0x40_0000
    case B26 => 0x800_0000
    case Pcrel20 => 0x20_0000
  }

  /** The edits of `apply`, or None where it raises LinkError. */
  function Plan(k: Kind, target: int, place: int): (p: Option<seq<Edit>>)
    ensures p.Some? ==> Follows(p.value, Shape(k))
  {
    var n := target - place;
    match k
    case Pcala =>
      (match SplitPcala(target, place)
       case None => None
       case Some((hi, lo)) => Some([Edit(SI20, hi), Edit(SI12, lo)]))
    case Call36 =>
      if n % 4 != 0 then None
      else
        (match SplitCall36(n)
         case None => None
         case Some((hi, lo)) => Some([Edit(SI20, hi), Edit(OFFS16, lo)]))
    case _ =>
      if n % 4 != 0 then None
      else if !(-BranchLimit(k) <= n < BranchLimit(k)) then None
      else Some([Edit(Shape(k)[0], n / 4)])
  }

  // ----- What the processor reads -----

  function Offs16(w: nat): int { Wrap(Slice(w, 10, 16), 0x8000) }

  function Offs21(w: nat): int { Wrap(Slice(w, 0, 5) * 0x1_0000 + Slice(w, 10, 16), 0x10_0000) }

  function Offs26(w: nat): int { Wrap(Slice(w, 0, 10) * 0x1_0000 + Slice(w, 10, 16), 0x200_0000) }

  function Si20(w: nat): int { Wrap(Slice(w, 5, 20), 0x8_0000) }

  function Si12(w: nat): int { Wrap(Slice(w, 10, 12), 0x800) }

  /** The address that the patched instruction or pair at `place` refers to. */
  function Address(k: Kind, field: seq<Byte>, place: int): int
    requires |field| == Size(k)
  {
    var w := Word(field, 0);
    match k
    case B16 => place + Offs16(w) * 4
    case B21 => place + Offs21(w) * 4
    case B26 => place + Offs26(w) * 4
    case Pcrel20 => place + Si20(w) * 4
    case Pcala => (place - place % 0x1000) + Si20(w) * 0x1000 + Si12(Word(field, 1))
    case Call36 => place + Si20(w) * 0x4_0000 + Offs16(Word(field, 1)) * 4
  }

  // ----- A patched word, read back -----

  lemma Formats()
    ensures FitsWord(OFFS16) && FitsWord(OFFS21) && FitsWord(OFFS26) && FitsWord(SI20) && FitsWord(SI12)
  {
  }

  lemma LandsWhole(w: nat, v: int)
    ensures Clear(OFFS16, w) && -0x8000 <= v < 0x8000 ==> Offs16(Or(w, Scatter(OFFS16, v))) == v
    ensures Clear(SI20, w) && -0x8_0000 <= v < 0x8_0000 ==> Si20(Or(w, Scatter(SI20, v))) == v
    ensures Clear(SI12, w) && -0x800 <= v < 0x800 ==> Si12(Or(w, Scatter(SI12, v))) == v
  {
    hide Slice, Pow2, Scatter, Or, Clear, Wrap;
    PowTable();
    if Clear(OFFS16, w) && -0x8000 <= v < 0x8000 { SignedField(w, v, 10, 16, 0x8000); }
    if Clear(SI20, w) && -0x8_0000 <= v < 0x8_0000 { SignedField(w, v, 5, 20, 0x8_0000); }
    if Clear(SI12, w) && -0x800 <= v < 0x800 { SignedField(w, v, 10, 12, 0x800); }
  }

  lemma LandsSplit(w: nat, v: int)
    ensures Clear(OFFS21, w) && -0x10_0000 <= v < 0x10_0000 ==> Offs21(Or(w, Scatter(OFFS21, v))) == v
    ensures Clear(OFFS26, w) && -0x200_0000 <= v < 0x200_0000 ==> Offs26(Or(w, Scatter(OFFS26, v))) == v
  {
    hide Slice, Pow2, Scatter, Or, Clear, Wrap, WellFormed;
    Formats();
    PowTable();
    if Clear(OFFS21, w) && -0x10_0000 <= v < 0x10_0000 { SignedPair(w, v, 10, 16, 0, 5, 0x10_0000); }
    if Clear(OFFS26, w) && -0x200_0000 <= v < 0x200_0000 { SignedPair(w, v, 10, 16, 0, 10, 0x200_0000); }
  }

  // ----- Main results -----

  /** What `apply` writes into a clear field makes the instruction refer to the target. */
  lemma Lands(k: Kind, field: seq<Byte>, target: int, place: int)
    requires |field| == Size(k) && Plan(k, target, place).Some?
    requires FieldClear(field, Shape(k))
    ensures Address(k, OrEdits(field, Plan(k, target, place).value), place) == target
  {
    hide Plan, Address, FieldClear, OrEdits;
    if Size(k) == 8 {
      LandsPair(k, field, target, place);
    } else {
      LandsBranch(k, field, target, place);
    }
  }

  lemma LandsBranch(k: Kind, field: seq<Byte>, target: int, place: int)
    requires Size(k) == 4 == |field| && Plan(k, target, place).Some?
    requires FieldClear(field, Shape(k))
    ensures Address(k, OrEdits(field, Plan(k, target, place).value), place) == target
  {
    hide Slice, Pow2, Scatter, Or, FitsWord, Clear, OrEdits, FromLE, Offs16, Offs21, Offs26, Si20, Si12, Word;
    var edits := Plan(k, target, place).value;
    var w := Word(field, 0);
    assert Clear(Shape(k)[0], w);
    OrEditsWord(field, edits, 0);
    LandsWhole(w, edits[0].value);
    LandsSplit(w, edits[0].value);
  }

  lemma LandsPair(k: Kind, field: seq<Byte>, target: int, place: int)
    requires Size(k) == 8 == |field| && Plan(k, target, place).Some?
    requires FieldClear(field, Shape(k))
    ensures Address(k, OrEdits(field, Plan(k, target, place).value), place) == target
  {
    hide Slice, Pow2, Scatter, Or, FitsWord, Clear, OrEdits, FromLE, Offs16, Si20, Si12, Word, FlipExtend;
    var edits := Plan(k, target, place).value;
    var v, w := Word(field, 0), Word(field, 1);
    assert Clear(Shape(k)[0], v) && Clear(Shape(k)[1], w);
    PairParts(k, target, place);
    OrEditsWord(field, edits, 0);
    OrEditsWord(field, edits, 1);
    LandsWhole(v, edits[0].value);
    LandsWhole(w, edits[1].value);
  }

  /** The two parts of a pair are in range and add up. */
  lemma PairParts(k: Kind, target: int, place: int)
    requires Size(k) == 8 && Plan(k, target, place).Some?
    ensures var edits := Plan(k, target, place).value;
      && |edits| == 2 && -0x8_0000 <= edits[0].value < 0x8_0000
      && (k == Pcala ==> -0x800 <= edits[1].value < 0x800
                         && place - place % 0x1000 + edits[0].value * 0x1000 + edits[1].value == target)
      && (k == Call36 ==> -0x8000 <= edits[1].value < 0x8000
                          && place + edits[0].value * 0x4_0000 + edits[1].value * 4 == target)
  {
    hide FlipExtend, Wrap;
    if k == Pcala {
      PcalaParts(target, place);
    } else {
      Call36Parts(target - place);
    }
    hide SplitPcala, SplitCall36;
  }

  lemma PcalaParts(target: int, place: int)
    ensures -0x800 <= FlipExtend(target, 0x800) < 0x800
    ensures place - place % 0x1000 + ((target + 0x800) / 0x1000 - place / 0x1000) * 0x1000 + FlipExtend(target, 0x800)
      == target
  {
    hide FlipExtend;
    assert target + 0x800 == (target + 0x800) / 0x1000 * 0x1000 + (target + 0x800) % 0x1000;
    assert place == place / 0x1000 * 0x1000 + place % 0x1000;
  }

  lemma Call36Parts(n: int)
    requires n % 4 == 0
    ensures var hi := (n + 0x2_0000) / 0x4_0000;
      var lo := (n - hi * 0x4_0000) / 4;
      -0x8000 <= lo < 0x8000 && hi * 0x4_0000 + lo * 4 == n
  {
    var hi, m := (n + 0x2_0000) / 0x4_0000, n / 4;
    assert n + 0x2_0000 == hi * 0x4_0000 + (n + 0x2_0000) % 0x4_0000;
    DivModUnique(n - hi * 0x4_0000, 4, m - hi * 0x1_0000, 0);
  }

  lemma Reach(k: Kind, place: int, any: seq<Byte>)
    requires |any| == Size(k)
    ensures -0x40_0000_0000 < Address(k, any, place) - place < 0x40_0000_0000
  {
    hide Slice, FromLE, Wrap, Word;
  }

  /** Where `apply` refuses the nearest number of an address, no contents of the field reach that address. */
  lemma Misses(k: Kind, target: int, place: int, any: seq<Byte>)
    requires |any| == Size(k) && Plan(k, Nearest(target, place), place).None?
    ensures !SameAddress(Address(k, any, place), target)
  {
    hide Address, Plan, Nearest, SameAddress;
    Reach(k, place, any);
    MissesNear(k, Nearest(target, place), place, any);
    if SameAddress(Address(k, any, place), target) {
      ReachesNearest(Address(k, any, place), target, place);
    }
  }

  lemma MissesNear(k: Kind, target: int, place: int, any: seq<Byte>)
    requires |any| == Size(k) && Plan(k, target, place).None?
    ensures Address(k, any, place) != target
  {
    hide Slice, FromLE, Wrap, FlipExtend, Word;
    var w := Word(any, 0);
    match k
    case B16 => BranchReach(Offs16(w), 0x8000, target, place);
    case B21 => BranchReach(Offs21(w), 0x10_0000, target, place);
    case B26 => BranchReach(Offs26(w), 0x200_0000, target, place);
    case Pcrel20 => BranchReach(Si20(w), 0x8_0000, target, place);
    case Pcala => PcalaReach(Si20(w), Si12(Word(any, 1)), target, place);
    case Call36 => Call36Reach(Si20(w), Offs16(Word(any, 1)), target, place);
  }

  /** Whatever a branch field holds, its target is a word displacement in range. */
  lemma BranchReach(x: int, half: int, target: int, place: int)
    requires -half <= x < half
    ensures place + x * 4 == target ==> (target - place) % 4 == 0 && -4 * half <= target - place < 4 * half
  {
  }

  lemma PcalaReach(hi: int, lo: int, target: int, place: int)
    requires -0x8_0000 <= hi < 0x8_0000 && -0x800 <= lo < 0x800
    ensures (place - place % 0x1000) + hi * 0x1000 + lo == target ==> SplitPcala(target, place).Some?
  {
    hide FlipExtend;
    if (place - place % 0x1000) + hi * 0x1000 + lo == target {
      DivModUnique(target + 0x800, 0x1000, place / 0x1000 + hi, lo + 0x800);
    }
  }

  lemma Call36Reach(hi: int, lo: int, target: int, place: int)
    requires -0x8_0000 <= hi < 0x8_0000 && -0x8000 <= lo < 0x8000
    ensures place + hi * 0x4_0000 + lo * 4 == target ==> (target - place) % 4 == 0 && SplitCall36(target - place).Some?
  {
    if place + hi * 0x4_0000 + lo * 4 == target {
      DivModUnique(target - place, 4, hi * 0x1_0000 + lo, 0);
      DivModUnique(target - place + 0x2_0000, 0x4_0000, hi, lo * 4 + 0x2_0000);
    }
  }

  /** Only the displacement matters, and for Pcala the page of the place. */
  lemma PlanIsRelative(k: Kind, target: int, place: int, delta: int)
    requires k == Pcala ==> delta % 0x1000 == 0
    ensures Plan(k, target + delta, place + delta) == Plan(k, target, place)
  {
    hide FlipExtend, Wrap;
    if k == Pcala {
      PageShift(target, place, delta);
    }
  }

  lemma PageShift(target: int, place: int, delta: int)
    requires delta % 0x1000 == 0
    ensures (target + delta + 0x800) / 0x1000 - (place + delta) / 0x1000 == (target + 0x800) / 0x1000 - place / 0x1000
    ensures Wrap(target + delta, 0x800) == Wrap(target, 0x800)
  {
    var d := delta / 0x1000;
    DivModUnique(target + delta + 0x800, 0x1000, (target + 0x800) / 0x1000 + d, (target + 0x800) % 0x1000);
    DivModUnique(place + delta, 0x1000, place / 0x1000 + d, place % 0x1000);
  }

  method Apply(k: Kind, buf: array<Byte>, at: nat, target: int, place: int) returns (ok: bool)
    requires at + Size(k) <= buf.Length
    modifies buf
    ensures ok == Plan(k, target, place).Some?
    ensures ok ==> buf[..] == old(buf[..at]) + OrEdits(old(buf[at..at + Size(k)]), Plan(k, target, place).value)
                              + old(buf[at + Size(k)..])
    ensures !ok ==> buf[..] == old(buf[..])
  {
    hide OrEdits, OrWordAt, Scatter, FitsWord, FlipExtend;
    var n := target - place;
    ghost var b := buf[..];
    assert b[..at] == buf[..at] && b[at..at + Size(k)] == buf[at..at + Size(k)]
      && b[at + Size(k)..] == buf[at + Size(k)..];
    if k == Pcala {
      var parts := SplitPcala(target, place);
      if parts.None? {
        return false;
      }
      var (hi, lo) := parts.value;
      OrWord(buf, at, Scatter(SI20, hi));
      OrWord(buf, at + 4, Scatter(SI12, lo));
      OrWordEdits(b, at, Edit(SI20, hi), Edit(SI12, lo));
      return true;
    }
    if n % 4 != 0 {
      return false;
    }
    if k == Call36 {
      var parts := SplitCall36(n);
      if parts.None? {
        return false;
      }
      var (hi, lo) := parts.value;
      OrWord(buf, at, Scatter(SI20, hi));
      OrWord(buf, at + 4, Scatter(OFFS16, lo));
      OrWordEdits(b, at, Edit(SI20, hi), Edit(OFFS16, lo));
      return true;
    }
    if !(-BranchLimit(k) <= n < BranchLimit(k)) {
      return false;
    }
    OrWord(buf, at, Scatter(Shape(k)[0], n / 4));
    OrWordEdit(b, at, Edit(Shape(k)[0], n / 4));
    ok := true;
  }
}
