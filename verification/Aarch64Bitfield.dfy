/**
  The bitfield aliases of aarch64 (`_alias` in jita/aarch64/encoder.py): sbfx, bfxil, ubfx, sbfiz,
  bfi, ubfiz and lsl become SBFM, BFM or UBFM, whose operation the Arm Architecture Reference Manual
  (DDI 0487, chapter C6.2) gives by masks. The emitted word is decoded and executed here, and the
  result compared with what each alias is for.
 */
module Aarch64Bitfield {
  import opened Bits
  import opened Wrappers
  import opened Aarch64Imm

  // ----- Bitwise operations -----

  /** NOT of an n bit value. */
  function Not(a: nat, n: nat): nat
    requires a < Pow2(n)
  {
    Pow2(n) - 1 - a
  }

  lemma {:induction false} AndBound(a: nat, b: nat, n: nat)
    requires a < Pow2(n) || b < Pow2(n)
    ensures And(a, b) < Pow2(n)
  {
    if a != 0 && b != 0 && n > 0 {
      AndBound(a / 2, b / 2, n - 1);
    }
  }

  lemma {:induction false} BitNot(a: nat, n: nat, i: nat)
    requires a < Pow2(n)
    ensures Bit(Not(a, n), i) == (i < n && !Bit(a, i))
  {
    if n == 0 {
      BitOfZero(i);
    } else if i > 0 {
      assert Not(a, n) / 2 == Not(a / 2, n - 1);
      BitNot(a / 2, n - 1, i - 1);
    }
  }

  // ----- The instructions -----

  datatype Opc = Sbfm | Bfm | Ubfm

  datatype Insn = Insn(opc: Opc, size: nat, rd: nat, rn: nat, immr: nat, imms: nat)

  predicate Size(w: nat)
  {
    w == 32 || w == 64
  }

  /** The bitfield instruction class: sf, opc, 100110, N, immr, imms, Rn, Rd. */
  function Decode(word: nat): Option<Insn>
  {
    var sf, opc, n := word / 0x8000_0000 % 2, word / 0x2000_0000 % 4, word / 0x40_0000 % 2;
    var immr, imms := word / 0x1_0000 % 64, word / 0x400 % 64;
    if word >= 0x1_0000_0000 || word / 0x80_0000 % 64 != 0x26 || opc == 3 || n != sf then None
    else if sf == 0 && (immr >= 32 || imms >= 32) then None
    else
      Some(Insn(if opc == 0 then Sbfm else if opc == 1 then Bfm else Ubfm, if sf == 1 then 64 else 32,
                word % 32, word / 0x20 % 32, immr, imms))
  }

  /** wmask and tmask of DecodeBitMasks with `immediate` false; N is the size bit. */
  function Masks(w: nat, immr: nat, imms: nat): (nat, nat)
    requires Size(w) && immr < w && imms < w
  {
    hide Pow2, Or, Ror, Replicate;
    var e := Pow2(HighestSetBit(64 * (if w == 64 then 1 else 0) + (63 - imms)));
    var s, r := imms % e, immr % e;
    (Replicate(Ror(Ones(s + 1), r, e), e, w / e), Replicate(Ones((s - r) % e + 1), e, w / e))
  }

  /** The value written to Rd, from the values of Rn and Rd. */
  function Result(insn: Insn, src: nat, dst: nat): nat
    requires Size(insn.size) && insn.immr < insn.size && insn.imms < insn.size
    requires src < Pow2(insn.size) && dst < Pow2(insn.size)
  {
    hide Pow2, Or, And, Ror, Replicate, HighestSetBit, Masks;
    var w := insn.size;
    var (wmask, tmask) := Masks(w, insn.immr, insn.imms);
    MasksBound(w, insn.immr, insn.imms);
    var rotated := Ror(src, insn.immr, w);
    match insn.opc
    case Sbfm =>
      var bot := And(rotated, wmask);
      var top := if Bit(src, insn.imms) then Ones(w) else 0;
      Or(And(top, Not(tmask, w)), And(bot, tmask))
    case Bfm =>
      var bot := Or(And(dst, Not(wmask, w)), And(rotated, wmask));
      Or(And(dst, Not(tmask, w)), And(bot, tmask))
    case Ubfm =>
      And(And(rotated, wmask), tmask)
  }

  lemma WholeElement(w: nat, imms: nat)
    requires Size(w) && imms < w
    ensures Pow2(HighestSetBit(64 * (if w == 64 then 1 else 0) + (63 - imms))) == w
  {
    PowTable();
    HighestBit(64 * (if w == 64 then 1 else 0) + (63 - imms), if w == 64 then 6 else 5);
  }

  /** The element is the whole register: the masks are one run of ones each. */
  lemma MasksAre(w: nat, immr: nat, imms: nat)
    requires Size(w) && immr < w && imms < w
    ensures Masks(w, immr, imms) == (Ror(Ones(imms + 1), immr, w), Ones((imms - immr) % w + 1))
  {
    hide Pow2, Or, Ror, HighestSetBit;
    WholeElement(w, imms);
    DivModUnique(imms, w, 0, imms);
    DivModUnique(immr, w, 0, immr);
    OneCopy(Ror(Ones(imms + 1), immr, w), w);
    OneCopy(Ones((imms - immr) % w + 1), w);
  }

  lemma MasksBound(w: nat, immr: nat, imms: nat)
    requires Size(w) && immr < w && imms < w
    ensures Masks(w, immr, imms).0 < Pow2(w) && Masks(w, immr, imms).1 < Pow2(w)
  {
    hide Pow2, Or, Ror, Masks;
    MasksAre(w, immr, imms);
    RorBound(Ones(imms + 1), immr, w);
    PowMonotone((imms - immr) % w + 1, w);
  }

  /** The masks bit by bit. */
  lemma MaskBits(w: nat, immr: nat, imms: nat, i: nat)
    requires Size(w) && immr < w && imms < w && i < w
    ensures Bit(Masks(w, immr, imms).0, i) == (Rot(i, immr, w) <= imms)
    ensures Bit(Masks(w, immr, imms).1, i) == (i <= if immr <= imms then imms - immr else imms - immr + w)
  {
    hide Pow2, Or, Ror, Masks, Bit;
    MasksAre(w, immr, imms);
    RunBit(imms + 1, immr, w, i);
    BitOnes((imms - immr) % w + 1, i);
    if immr <= imms {
      DivModUnique(imms - immr, w, 0, imms - immr);
    } else {
      DivModUnique(imms - immr, w, -1, imms - immr + w);
    }
  }

  function ResultBit(insn: Insn, src: nat, dst: nat, i: nat): bool
  {
    var j := Rot(i, insn.immr, insn.size);
    var inW := j <= insn.imms;
    var inT := i <= if insn.immr <= insn.imms then insn.imms - insn.immr else insn.imms - insn.immr + insn.size;
    match insn.opc
    case Sbfm => if inT then inW && Bit(src, j) else Bit(src, insn.imms)
    case Bfm => if inT && inW then Bit(src, j) else Bit(dst, i)
    case Ubfm => inT && inW && Bit(src, j)
  }

  lemma ResultBits(insn: Insn, src: nat, dst: nat, i: nat)
    requires Size(insn.size) && insn.immr < insn.size && insn.imms < insn.size && i < insn.size
    requires src < Pow2(insn.size) && dst < Pow2(insn.size)
    ensures Bit(Result(insn, src, dst), i) == ResultBit(insn, src, dst, i)
  {
    hide Pow2, Or, And, Ror, Masks, Bit, Ones, Not;
    var w := insn.size;
    var (wmask, tmask) := Masks(w, insn.immr, insn.imms);
    MasksBound(w, insn.immr, insn.imms);
    MaskBits(w, insn.immr, insn.imms, i);
    var rotated := Ror(src, insn.immr, w);
    RorBit(src, insn.immr, w, i);
    BitNot(tmask, w, i);
    match insn.opc {
      case Sbfm =>
        var bot := And(rotated, wmask);
        var top := if Bit(src, insn.imms) then Ones(w) else 0;
        BitOnes(w, i); BitOfZero(i);
        BitAnd(rotated, wmask, i); BitAnd(bot, tmask, i); BitAnd(top, Not(tmask, w), i);
        BitOr(And(top, Not(tmask, w)), And(bot, tmask), i);
      case Bfm =>
        BitNot(wmask, w, i);
        var bot := Or(And(dst, Not(wmask, w)), And(rotated, wmask));
        BitAnd(dst, Not(wmask, w), i); BitAnd(rotated, wmask, i);
        BitOr(And(dst, Not(wmask, w)), And(rotated, wmask), i);
        BitAnd(dst, Not(tmask, w), i); BitAnd(bot, tmask, i);
        BitOr(And(dst, Not(tmask, w)), And(bot, tmask), i);
      case Ubfm =>
        BitAnd(rotated, wmask, i); BitAnd(And(rotated, wmask), tmask, i);
    }
  }

  lemma ResultBound(insn: Insn, src: nat, dst: nat)
    requires Size(insn.size) && insn.immr < insn.size && insn.imms < insn.size
    requires src < Pow2(insn.size) && dst < Pow2(insn.size)
    ensures Result(insn, src, dst) < Pow2(insn.size)
  {
    hide Pow2, Or, And, Ror, Masks, Bit, Ones, Not;
    var w := insn.size;
    var (wmask, tmask) := Masks(w, insn.immr, insn.imms);
    MasksBound(w, insn.immr, insn.imms);
    var rotated := Ror(src, insn.immr, w);
    NotBound(tmask, w);
    match insn.opc {
      case Sbfm =>
        var bot := And(rotated, wmask);
        var top := if Bit(src, insn.imms) then Ones(w) else 0;
        AndBound(top, Not(tmask, w), w); AndBound(bot, tmask, w);
        OrBound(And(top, Not(tmask, w)), And(bot, tmask), w);
      case Bfm =>
        NotBound(wmask, w);
        var bot := Or(And(dst, Not(wmask, w)), And(rotated, wmask));
        AndBound(dst, Not(tmask, w), w); AndBound(bot, tmask, w);
        OrBound(And(dst, Not(tmask, w)), And(bot, tmask), w);
      case Ubfm =>
        AndBound(And(rotated, wmask), tmask, w);
    }
  }

  lemma NotBound(a: nat, n: nat)
    requires a < Pow2(n)
    ensures Not(a, n) < Pow2(n)
  {
  }

  // ----- The aliases -----

  datatype Alias =
    | Sbfx(lsb: int, width: int) | Bfxil(lsb: int, width: int) | Ubfx(lsb: int, width: int)
    | Sbfiz(lsb: int, width: int) | Bfi(lsb: int, width: int) | Ubfiz(lsb: int, width: int)
    | Lsl(shift: int)

  /** MAP_ALIAS: the instruction that stands for an alias. */
  function Target(a: Alias): Opc
  {
    match a
    case Sbfx(_, _) => Sbfm
    case Sbfiz(_, _) => Sbfm
    case Bfxil(_, _) => Bfm
    case Bfi(_, _) => Bfm
    case _ => Ubfm
  }

  /** `_alias`: immr and imms, or None where it raises EncodeError. */
  function Rewritten(a: Alias, size: nat): Option<(int, int)>
    requires Size(size)
  {
    if !a.Lsl? && !(0 <= a.lsb < size && 1 <= a.width <= size - a.lsb) then None
    else
      match a
      case Sbfx(lsb, width) => Some((lsb, lsb + width - 1))
      case Bfxil(lsb, width) => Some((lsb, lsb + width - 1))
      case Ubfx(lsb, width) => Some((lsb, lsb + width - 1))
      case Sbfiz(lsb, width) => Some(((size - lsb) % size, width - 1))
      case Bfi(lsb, width) => Some(((size - lsb) % size, width - 1))
      case Ubfiz(lsb, width) => Some(((size - lsb) % size, width - 1))
      case Lsl(sh) => if !(0 <= sh < size) then None else Some(((size - sh) % size, size - 1 - sh))
  }

  /** The template's own check of a 6 bit immediate. */
  predicate Immediate(n: int, size: int)
  {
    0 <= n < 64 && (size == 32 ==> n < 32)
  }

  /** The emitted word: the template of sbfm, bfm or ubfm with its fields added. */
  function Word(a: Alias, size: nat, rd: nat, rn: nat): Option<nat>
    requires Size(size) && rd < 32 && rn < 32
  {
    match Rewritten(a, size)
    case None => None
    case Some((immr, imms)) =>
      if !Immediate(immr, size) || !Immediate(imms, size) then None
      else
        var template := match Target(a)
          case Sbfm => if size == 32 then 0x1300_0000 else 0x9340_0000
          case Bfm => if size == 32 then 0x3300_0000 else 0xB340_0000
          case Ubfm => if size == 32 then 0x5300_0000 else 0xD340_0000;
        Some(template + rd + rn * 0x20 + immr * 0x1_0000 + imms * 0x400)
  }

  // ----- What the aliases are for -----

  /** `width` bits of x from bit `lsb` on. */
  function Extract(x: nat, lsb: nat, width: nat): nat
  {
    Low(Shr(x, lsb), width)
  }

  /** x with `width` bits from bit `at` on replaced by v. */
  function Insert(x: nat, at: nat, width: nat, v: nat): nat
  {
    Shl(Shr(x, at + width), at + width) + Shl(v, at) + Low(x, at)
  }

  /** A `width` bit number read as signed, times 2**lsb, as a register of w bits holds it. */
  function SignExtended(x: nat, width: nat, lsb: nat, w: nat): nat
    requires 0 < width
  {
    hide Pow2, Wrap;
    (Wrap(x, Pow2(width - 1)) * Pow2(lsb)) % Pow2(w)
  }

  predicate Valid(a: Alias, size: int)
  {
    if a.Lsl? then 0 <= a.shift < size else 0 <= a.lsb && 1 <= a.width && a.lsb + a.width <= size
  }

  function Meaning(a: Alias, w: nat, src: nat, dst: nat): nat
    requires Size(w) && Valid(a, w)
  {
    match a
    case Ubfx(lsb, width) => Extract(src, lsb, width)
    case Sbfx(lsb, width) => SignExtended(Extract(src, lsb, width), width, 0, w)
    case Bfxil(lsb, width) => Insert(dst, 0, width, Extract(src, lsb, width))
    case Ubfiz(lsb, width) => Shl(Low(src, width), lsb)
    case Sbfiz(lsb, width) => SignExtended(Low(src, width), width, lsb, w)
    case Bfi(lsb, width) => Insert(dst, lsb, width, Low(src, width))
    case Lsl(sh) => Low(Shl(src, sh), w)
  }

  lemma ExtractBit(x: nat, lsb: nat, width: nat, i: nat)
    ensures Bit(Extract(x, lsb, width), i) == (i < width && Bit(x, i + lsb))
  {
    hide Pow2, Bit;
    BitMod(Shr(x, lsb), width, i);
    BitShr(x, lsb, i);
  }

  lemma ShlBit(x: nat, k: nat, i: nat)
    ensures Bit(Shl(x, k), i) == (k <= i && Bit(x, i - k))
  {
    hide Pow2, Bit;
    BitShl(x, k, i);
  }

  lemma InsertBit(x: nat, at: nat, width: nat, v: nat, i: nat)
    requires v < Pow2(width)
    ensures Bit(Insert(x, at, width, v), i) == if at <= i < at + width then Bit(v, i - at) else Bit(x, i)
  {
    hide Pow2, Bit, Or;
    var hi, mid, lo := Shl(Shr(x, at + width), at + width), Shl(v, at), Low(x, at);
    MultipleMod(Shr(x, at + width), Pow2(at + width));
    MultipleMod(v, Pow2(at));
    PowAdd(width, at);
    ScaledBound(v, Pow2(width), lo, Pow2(at));
    OrIsSum(mid, lo, at);
    OrIsSum(hi, Or(mid, lo), at + width);
    BitOr(hi, Or(mid, lo), i);
    BitOr(mid, lo, i);
    ShlBit(Shr(x, at + width), at + width, i);
    ShlBit(v, at, i);
    BitMod(x, at, i);
    if i >= at + width {
      BitShr(x, at + width, i - (at + width));
      BitAbove(v, width, i - at);
    }
  }

  /** The upper half of a sign extended number is ones. */
  lemma NegativeSum(x: nat, width: nat, w: nat)
    requires 0 < width <= w && Pow2(width - 1) <= x < Pow2(width)
    ensures (x - Pow2(width)) % Pow2(w) == Shl(Ones(w - width), width) + x
  {
    hide Pow2;
    var p := Pow2(width);
    PowAdd(w - width, width);
    Distribute(Pow2(w - width), 1, -1, p);
    PowMonotone(width, w);
    DivModUnique(x - p, Pow2(w), -1, Pow2(w) - p + x);
  }

  lemma WrapOf(x: nat, width: nat)
    requires 0 < width && x < Pow2(width)
    ensures Wrap(x, Pow2(width - 1)) == if x < Pow2(width - 1) then x else x - Pow2(width)
  {
    hide Pow2;
    var h := Pow2(width - 1);
    assert Pow2(width) == 2 * h by { PowAdd(1, width - 1); assert Pow2(1) == 2 by { PowTable(); } }
    if x < h {
      DivModUnique(x + h, 2 * h, 0, x + h);
    } else {
      DivModUnique(x + h, 2 * h, 1, x - h);
    }
  }

  lemma TopBit(x: nat, width: nat)
    requires 0 < width && x < Pow2(width)
    ensures Bit(x, width - 1) == (Pow2(width - 1) <= x)
  {
    hide Pow2;
    var h := Pow2(width - 1);
    assert Pow2(width) == 2 * h by { PowAdd(1, width - 1); assert Pow2(1) == 2 by { PowTable(); } }
    BitShr(x, width - 1, 0);
    if x < h {
      DivModUnique(x, h, 0, x);
    } else {
      DivModUnique(x, h, 1, x - h);
    }
  }

  lemma SignBit(x: nat, width: nat, w: nat, i: nat)
    requires 0 < width <= w && x < Pow2(width) && i < w
    ensures Wrap(x, Pow2(width - 1)) % Pow2(w) >= 0
    ensures Bit(Wrap(x, Pow2(width - 1)) % Pow2(w), i) == Bit(x, if i < width then i else width - 1)
  {
    hide Pow2, Wrap, Bit, Or;
    WrapOf(x, width);
    TopBit(x, width);
    if x < Pow2(width - 1) {
      PowMonotone(width, w);
      DivModUnique(x, Pow2(w), 0, x);
      if i >= width {
        BitAbove(x, width, i);
      }
    } else {
      NegativeSum(x, width, w);
      MultipleMod(Ones(w - width), Pow2(width));
      OrIsSum(Shl(Ones(w - width), width), x, width);
      BitOr(Shl(Ones(w - width), width), x, i);
      ShlBit(Ones(w - width), width, i);
      if i >= width {
        BitOnes(w - width, i - width);
        BitAbove(x, width, i);
      }
    }
  }

  /** Scaling before or after the reduction to a register. */
  lemma ScaledMod(y: int, lsb: nat, w: nat)
    requires lsb <= w
    ensures (y * Pow2(lsb)) % Pow2(w) == (y % Pow2(w - lsb)) * Pow2(lsb)
  {
    hide Pow2;
    var p, q := Pow2(w - lsb), Pow2(lsb);
    PowAdd(w - lsb, lsb);
    assert y == (y / p) * p + y % p;
    Distribute(y / p, p, y % p, q);
    ScaledBound(y % p, p, 0, q);
    DivModUnique(y * q, p * q, y / p, (y % p) * q);
  }

  lemma SignExtendedBit(x: nat, width: nat, lsb: nat, w: nat, i: nat)
    requires 0 < width && lsb + width <= w && x < Pow2(width) && i < w
    ensures Bit(SignExtended(x, width, lsb, w), i)
         == (lsb <= i && Bit(x, if i - lsb < width then i - lsb else width - 1))
  {
    hide Pow2, Wrap, Bit;
    var y := Wrap(x, Pow2(width - 1));
    ScaledMod(y, lsb, w);
    ShlBit(y % Pow2(w - lsb), lsb, i);
    if lsb <= i {
      SignBit(x, width, w - lsb, i - lsb);
    }
  }

  // ----- Rewriting preserves meaning -----

  lemma ExtractMeaning(a: Alias, w: nat, src: nat, dst: nat, i: nat)
    requires Size(w) && Valid(a, w) && src < Pow2(w) && dst < Pow2(w) && i < w
    requires Rewritten(a, w).Some?
    requires a.Ubfx? || a.Sbfx? || a.Bfxil?
    ensures Bit(Meaning(a, w, src, dst), i)
         == ResultBit(Insn(Target(a), w, 0, 0, Rewritten(a, w).value.0, Rewritten(a, w).value.1), src, dst, i)
  {
    hide Pow2, Wrap, Bit, Extract, Insert, SignExtended, Shl, Shr, Low;
    ExtractBit(src, a.lsb, a.width, i);
    if a.Sbfx? {
      ExtractBound(src, a.lsb, a.width);
      SignExtendedBit(Extract(src, a.lsb, a.width), a.width, 0, w, i);
      ExtractBit(src, a.lsb, a.width, a.width - 1);
    } else if a.Bfxil? {
      ExtractBound(src, a.lsb, a.width);
      InsertBit(dst, 0, a.width, Extract(src, a.lsb, a.width), i);
    }
  }

  lemma PlaceMeaning(a: Alias, w: nat, src: nat, dst: nat, i: nat)
    requires Size(w) && Valid(a, w) && src < Pow2(w) && dst < Pow2(w) && i < w
    requires Rewritten(a, w).Some?
    requires a.Ubfiz? || a.Sbfiz? || a.Bfi?
    ensures Bit(Meaning(a, w, src, dst), i)
         == ResultBit(Insn(Target(a), w, 0, 0, Rewritten(a, w).value.0, Rewritten(a, w).value.1), src, dst, i)
  {
    hide Pow2, Wrap, Bit, Extract, Insert, SignExtended, Shl, Shr, Low;
    LowBound(src, a.width);
    if a.lsb <= i {
      LowBit(src, a.width, i - a.lsb);
    }
    match a {
      case Ubfiz(lsb, width) => ShlBit(Low(src, width), lsb, i);
      case Sbfiz(lsb, width) => SignExtendedBit(Low(src, width), width, lsb, w, i); LowBit(src, width, width - 1);
      case Bfi(lsb, width) => InsertBit(dst, lsb, width, Low(src, width), i);
    }
  }

  lemma MeaningBit(a: Alias, w: nat, src: nat, dst: nat, i: nat)
    requires Size(w) && Valid(a, w) && src < Pow2(w) && dst < Pow2(w) && i < w
    requires Rewritten(a, w).Some?
    ensures Bit(Meaning(a, w, src, dst), i)
         == ResultBit(Insn(Target(a), w, 0, 0, Rewritten(a, w).value.0, Rewritten(a, w).value.1), src, dst, i)
  {
    hide Pow2, Wrap, Bit, Extract, Insert, SignExtended, Shl, Shr, Low;
    match a {
      case Ubfiz(_, _) => PlaceMeaning(a, w, src, dst, i);
      case Sbfiz(_, _) => PlaceMeaning(a, w, src, dst, i);
      case Bfi(_, _) => PlaceMeaning(a, w, src, dst, i);
      case Lsl(sh) => LowBit(Shl(src, sh), w, i); ShlBit(src, sh, i);
      case _ => ExtractMeaning(a, w, src, dst, i);
    }
  }

  lemma LowBit(x: nat, k: nat, i: nat)
    ensures Bit(Low(x, k), i) == (i < k && Bit(x, i))
  {
    BitMod(x, k, i);
  }

  lemma LowBound(x: nat, k: nat)
    ensures Low(x, k) < Pow2(k)
  {
  }

  lemma ExtractBound(x: nat, lsb: nat, width: nat)
    ensures Extract(x, lsb, width) < Pow2(width)
  {
  }

  lemma MeaningBound(a: Alias, w: nat, src: nat, dst: nat)
    requires Size(w) && Valid(a, w) && src < Pow2(w) && dst < Pow2(w)
    ensures Meaning(a, w, src, dst) < Pow2(w)
  {
    hide Pow2, Wrap, Bit, Extract, Insert, Shl, Shr, Low;
    match a {
      case Ubfx(lsb, width) => ExtractBound(src, lsb, width); PowMonotone(width, w);
      case Sbfx(lsb, width) =>
      case Bfxil(lsb, width) => ExtractBound(src, lsb, width); InsertBound(dst, 0, width, Extract(src, lsb, width), w);
      case Ubfiz(lsb, width) => LowBound(src, width); ShlBound(Low(src, width), width, lsb, w);
      case Sbfiz(lsb, width) =>
      case Bfi(lsb, width) => LowBound(src, width); InsertBound(dst, lsb, width, Low(src, width), w);
      case Lsl(sh) => LowBound(Shl(src, sh), w);
    }
  }

  lemma ShlBound(x: nat, width: nat, k: nat, w: nat)
    requires x < Pow2(width) && width + k <= w
    ensures Shl(x, k) < Pow2(w)
  {
    hide Pow2;
    PowAdd(width, k);
    ScaledBound(x, Pow2(width), 0, Pow2(k));
    PowMonotone(width + k, w);
  }

  lemma InsertBound(x: nat, at: nat, width: nat, v: nat, w: nat)
    requires v < Pow2(width) && at + width <= w && x < Pow2(w)
    ensures Insert(x, at, width, v) < Pow2(w)
  {
    hide Pow2, Low, Shr, Shl;
    var t := at + width;
    PowAdd(width, at);
    LowBound(x, at);
    ShlIs(v, at);
    ScaledBound(v, Pow2(width), Low(x, at), Pow2(at));
    PowAdd(w - t, t);
    ShrBound(x, t, w);
    ShlIs(Shr(x, t), t);
    ScaledBound(Shr(x, t), Pow2(w - t), Shl(v, at) + Low(x, at), Pow2(t));
  }

  lemma ShlIs(x: nat, k: nat)
    ensures Shl(x, k) == x * Pow2(k)
  {
  }

  lemma ShrBound(x: nat, t: nat, w: nat)
    requires t <= w && x < Pow2(w)
    ensures Shr(x, t) < Pow2(w - t)
  {
    hide Pow2;
    PowAdd(w - t, t);
    QuotientBound(x, Pow2(t), Pow2(w - t));
  }

  /** The immediates of a valid alias always fit their fields, and only a valid alias is accepted. */
  lemma AcceptsExactly(a: Alias, w: nat, rd: nat, rn: nat)
    requires Size(w) && rd < 32 && rn < 32
    ensures Word(a, w, rd, rn).Some? <==> Valid(a, w)
    ensures Valid(a, w) ==>
      && Rewritten(a, w).Some?
      && 0 <= Rewritten(a, w).value.0 < w && 0 <= Rewritten(a, w).value.1 < w
      && Decode(Word(a, w, rd, rn).value)
         == Some(Insn(Target(a), w, rd, rn, Rewritten(a, w).value.0, Rewritten(a, w).value.1))
  {
    hide Decode;
    if Valid(a, w) {
      RewrittenFits(a, w);
      var (immr, imms) := Rewritten(a, w).value;
      WordDecodes(Target(a), w, rd, rn, immr, imms);
    }
  }

  lemma RewrittenFits(a: Alias, w: nat)
    requires Size(w) && Valid(a, w)
    ensures Rewritten(a, w).Some? && 0 <= Rewritten(a, w).value.0 < w && 0 <= Rewritten(a, w).value.1 < w
  {
  }

  lemma WordFields(top: nat, n: nat, immr: nat, imms: nat, rn: nat, rd: nat)
    requires n < 2 && immr < 64 && imms < 64 && rn < 32 && rd < 32
    ensures var word := top * 0x80_0000 + n * 0x40_0000 + rd + rn * 0x20 + immr * 0x1_0000 + imms * 0x400;
      && word / 0x80_0000 == top && word / 0x40_0000 % 2 == n && word / 0x1_0000 % 64 == immr
      && word / 0x400 % 64 == imms && word / 0x20 % 32 == rn && word % 32 == rd
      && word / 0x2000_0000 == top / 0x40 && word / 0x8000_0000 == top / 0x100
  {
    var e := 2 * top + n;
    var d := 64 * e + immr;
    var c := 64 * d + imms;
    var b := 32 * c + rn;
    var word := 32 * b + rd;
    DivModUnique(word, 0x20, b, rd);
    DivModUnique(b, 32, c, rn);
    DivModUnique(word, 0x400, c, 0x20 * rn + rd);
    DivModUnique(c, 64, d, imms);
    DivModUnique(word, 0x1_0000, d, 0x400 * imms + 0x20 * rn + rd);
    DivModUnique(d, 64, e, immr);
    var low := 0x1_0000 * immr + 0x400 * imms + 0x20 * rn + rd;
    DivModUnique(word, 0x40_0000, e, low);
    DivModUnique(e, 2, top, n);
    var low' := 0x40_0000 * n + low;
    DivModUnique(word, 0x80_0000, top, low');
    DivModUnique(word, 0x2000_0000, top / 0x40, 0x80_0000 * (top % 0x40) + low');
    DivModUnique(word, 0x8000_0000, top / 0x100, 0x80_0000 * (top % 0x100) + low');
  }

  lemma WordDecodes(opc: Opc, w: nat, rd: nat, rn: nat, immr: nat, imms: nat)
    requires Size(w) && rd < 32 && rn < 32 && immr < w && imms < w
    ensures var template := (match opc
        case Sbfm => if w == 32 then 0x1300_0000 else 0x9340_0000
        case Bfm => if w == 32 then 0x3300_0000 else 0xB340_0000
        case Ubfm => if w == 32 then 0x5300_0000 else 0xD340_0000);
      Decode(template + rd + rn * 0x20 + immr * 0x1_0000 + imms * 0x400) == Some(Insn(opc, w, rd, rn, immr, imms))
  {
    var top := 0x100 * (if w == 64 then 1 else 0) + 0x26
      + 0x40 * (match opc case Sbfm => 0 case Bfm => 1 case Ubfm => 2);
    WordFields(top, if w == 64 then 1 else 0, immr, imms, rn, rd);
    TopFields(opc, w);
  }

  lemma TopFields(opc: Opc, w: nat)
    requires Size(w)
    ensures var op := (match opc case Sbfm => 0 case Bfm => 1 case Ubfm => 2);
      var sf := (if w == 64 then 1 else 0);
      var top := 0x100 * sf + 0x26 + 0x40 * op;
      top % 64 == 0x26 && top / 0x40 % 4 == op && top / 0x100 % 2 == sf && top < 0x200
  {
  }

  /**
    Every accepted alias becomes a word that the processor decodes as SBFM, BFM or UBFM of the same
    registers, and executing it computes the alias's own meaning for all register values.
   */
  lemma AliasPreservesMeaning(a: Alias, w: nat, rd: nat, rn: nat, src: nat, dst: nat)
    requires Size(w) && rd < 32 && rn < 32 && src < Pow2(w) && dst < Pow2(w)
    requires Word(a, w, rd, rn).Some?
    ensures Valid(a, w) && Decode(Word(a, w, rd, rn).value).Some?
    ensures var insn := Decode(Word(a, w, rd, rn).value).value;
      && insn.size == w && insn.rd == rd && insn.rn == rn && insn.immr < w && insn.imms < w
      && Result(insn, src, dst) == Meaning(a, w, src, dst)
  {
    hide Pow2, Bit, Decode, Word, Result, Meaning, Rewritten, Target, ResultBit, Valid;
    AcceptsExactly(a, w, rd, rn);
    var insn := Decode(Word(a, w, rd, rn).value).value;
    ResultBound(insn, src, dst);
    MeaningBound(a, w, src, dst);
    forall i: nat | i < w
      ensures Bit(Result(insn, src, dst), i) == Bit(Meaning(a, w, src, dst), i)
    {
      ResultBits(insn, src, dst, i);
      MeaningBit(a, w, src, dst, i);
      SameBit(insn, Insn(Target(a), w, 0, 0, insn.immr, insn.imms), src, dst, i);
    }
    BitsEqual(Result(insn, src, dst), Meaning(a, w, src, dst), w);
  }

  lemma SameBit(p: Insn, q: Insn, src: nat, dst: nat, i: nat)
    requires p.(rd := 0, rn := 0) == q.(rd := 0, rn := 0)
    ensures ResultBit(p, src, dst, i) == ResultBit(q, src, dst, i)
  {
  }
}
