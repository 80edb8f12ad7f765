/**
  The relocation kinds of jita/aarch64/patch.py against the branch, literal and adr encodings of
  the Arm Architecture Reference Manual (Arm DDI 0487, chapter C6.2).
 */
module Aarch64Patch {
  import opened Bits
  import opened Bytes
  import opened Fields
  import opened Relocation
  import opened Wrappers

  datatype Kind = Rel26 | Rel19 | Rel14 | Adr | Adrp

  const SIZE: nat := 4

  // ----- The fields that the linker writes -----

  const IMM26: Format := [Seg(0, 0, 26)]
  const IMM19: Format := [Seg(0, 5, 19)]
  const IMM14: Format := [Seg(0, 5, 14)]
  const ADR: Format := [Seg(0, 29, 2), Seg(2, 5, 19)]

  function Shape(k: Kind): (shape: seq<Format>)
    ensures |shape| == 1 && FitsWord(shape[0])
  {
    match k
    case Rel26 => [IMM26]
    case Rel19 => [IMM19]
    case Rel14 => [IMM14]
    case _ => [ADR]
  }

  /** 2**(bits + 1) for a branch of `bits` bits. */
  function BranchLimit(k: Kind): int
    requires k != Adr && k != Adrp
  {
    match k case Rel26 => 0x800_0000 case Rel19 => 0x10_0000 case Rel14 => 0x8000
  }

  /** The edits of `apply`, or None where it raises LinkError. */
  function Plan(k: Kind, target: int, place: int): (p: Option<seq<Edit>>)
    ensures p.Some? ==> Follows(p.value, Shape(k))
  {
    if k == Adr || k == Adrp then
      var n := if k == Adrp then target / 0x1000 - place / 0x1000 else target - place;
      if !(-0x10_0000 <= n < 0x10_0000) then None else Some([Edit(ADR, n)])
    else
      var n := target - place;
      if n % 4 != 0 then None
      else if !(-BranchLimit(k) <= n < BranchLimit(k)) then None
      else Some([Edit(Shape(k)[0], n / 4)])
  }

  // ----- What the processor reads -----

  function Imm26(w: nat): int { Wrap(Slice(w, 0, 26), 0x200_0000) }

  function Imm19(w: nat): int { Wrap(Slice(w, 5, 19), 0x4_0000) }

  function Imm14(w: nat): int { Wrap(Slice(w, 5, 14), 0x2000) }

  /** immhi:immlo */
  function AdrImm(w: nat): int { Wrap(Slice(w, 5, 19) * 4 + Slice(w, 29, 2), 0x10_0000) }

  /** The address that the patched instruction at `place` refers to; for adrp, the start of a page. */
  function Address(k: Kind, field: seq<Byte>, place: int): int
    requires |field| == SIZE
  {
    var w := Word(field, 0);
    match k
    case Rel26 => place + Imm26(w) * 4
    case Rel19 => place + Imm19(w) * 4
    case Rel14 => place + Imm14(w) * 4
    case Adr => place + AdrImm(w)
    case Adrp => (place - place % 0x1000) + AdrImm(w) * 0x1000
  }

  function Wanted(k: Kind, target: int): int
  {
    if k == Adrp then target - target % 0x1000 else target
  }

  // ----- A patched word, read back -----

  lemma Formats()
    ensures FitsWord(IMM26) && FitsWord(IMM19) && FitsWord(IMM14) && FitsWord(ADR)
  {
  }

  lemma LandsWord(w: nat, v: int)
    ensures Clear(IMM26, w) && -0x200_0000 <= v < 0x200_0000 ==> Imm26(Or(w, Scatter(IMM26, v))) == v
    ensures Clear(IMM19, w) && -0x4_0000 <= v < 0x4_0000 ==> Imm19(Or(w, Scatter(IMM19, v))) == v
    ensures Clear(IMM14, w) && -0x2000 <= v < 0x2000 ==> Imm14(Or(w, Scatter(IMM14, v))) == v
    ensures Clear(ADR, w) && -0x10_0000 <= v < 0x10_0000 ==> AdrImm(Or(w, Scatter(ADR, v))) == v
  {
    hide Slice, Pow2, Scatter, Or, Clear, Wrap, WellFormed;
    Formats();
    PowTable();
    if Clear(IMM26, w) && -0x200_0000 <= v < 0x200_0000 { SignedField(w, v, 0, 26, 0x200_0000); }
    if Clear(IMM19, w) && -0x4_0000 <= v < 0x4_0000 { SignedField(w, v, 5, 19, 0x4_0000); }
    if Clear(IMM14, w) && -0x2000 <= v < 0x2000 { SignedField(w, v, 5, 14, 0x2000); }
    if Clear(ADR, w) && -0x10_0000 <= v < 0x10_0000 { SignedPair(w, v, 29, 2, 5, 19, 0x10_0000); }
  }

  // ----- Main results -----

  /** What `apply` writes into a clear field makes the instruction refer to the target. */
  lemma Lands(k: Kind, field: seq<Byte>, target: int, place: int)
    requires |field| == SIZE && Plan(k, target, place).Some?
    requires FieldClear(field, Shape(k))
    ensures Address(k, OrEdits(field, Plan(k, target, place).value), place) == Wanted(k, target)
  {
    hide Slice, Pow2, Scatter, Or, FitsWord, Clear, OrEdits, FromLE, Imm26, Imm19, Imm14, AdrImm;
    var edits := Plan(k, target, place).value;
    OrEditsWord(field, edits, 0);
    LandsWord(Word(field, 0), edits[0].value);
  }

  lemma Reach(k: Kind, place: int, any: seq<Byte>)
    requires |any| == SIZE
    ensures -0x1_0000_2000 < Address(k, any, place) - place < 0x1_0000_2000
  {
    hide Slice, FromLE, Wrap, Word;
  }

  /** Where `apply` refuses the nearest number of an address, no contents of the field reach that address. */
  lemma Misses(k: Kind, target: int, place: int, any: seq<Byte>)
    requires |any| == SIZE && Plan(k, Nearest(target, place), place).None?
    ensures !SameAddress(Address(k, any, place), Wanted(k, target))
  {
    hide Slice, FromLE, Address, Plan, Nearest, SameAddress;
    Reach(k, place, any);
    MissesNear(k, Nearest(target, place), place, any);
    SamePage(k, target, Nearest(target, place));
    if SameAddress(Address(k, any, place), Wanted(k, target)) {
      SameTrans(Address(k, any, place), Wanted(k, target), Wanted(k, Nearest(target, place)));
      SameIsEqual(Address(k, any, place), Wanted(k, Nearest(target, place)));
    }
  }

  lemma SamePage(k: Kind, target: int, near: int)
    requires SameAddress(near, target)
    ensures SameAddress(Wanted(k, target), Wanted(k, near))
  {
    var m := (near - target) / 0x1_0000_0000_0000_0000;
    assert near - target == m * 0x1_0000_0000_0000_0000;
    DivModUnique(near, 0x1000, target / 0x1000 + m * 0x10_0000_0000_0000, target % 0x1000);
    DivModUnique(target - near, 0x1_0000_0000_0000_0000, -m, 0);
  }

  lemma MissesNear(k: Kind, target: int, place: int, any: seq<Byte>)
    requires |any| == SIZE && Plan(k, target, place).None?
    ensures Address(k, any, place) != Wanted(k, target)
  {
    hide Slice, FromLE;
  }

  /** Only the displacement matters, and for adrp the page of the place. */
  lemma PlanIsRelative(k: Kind, target: int, place: int, delta: int)
    requires k == Adrp ==> delta % 0x1000 == 0
    ensures Plan(k, target + delta, place + delta) == Plan(k, target, place)
  {
  }

  method Apply(k: Kind, buf: array<Byte>, at: nat, target: int, place: int) returns (ok: bool)
    requires at + SIZE <= buf.Length
    modifies buf
    ensures ok == Plan(k, target, place).Some?
    ensures ok ==> buf[..] == old(buf[..at]) + OrEdits(old(buf[at..at + SIZE]), Plan(k, target, place).value)
                              + old(buf[at + SIZE..])
    ensures !ok ==> buf[..] == old(buf[..])
  {
    hide OrEdits, OrWordAt, Scatter, FitsWord;
    ghost var b := buf[..];
    assert b[..at] == buf[..at] && b[at..at + SIZE] == buf[at..at + SIZE] && b[at + SIZE..] == buf[at + SIZE..];
    if k == Adr || k == Adrp {
      var n := if k == Adrp then target / 0x1000 - place / 0x1000 else target - place;
      if !(-0x10_0000 <= n < 0x10_0000) {
        return false;
      }
      OrWord(buf, at, Scatter(ADR, n));
      OrWordEdit(b, at, Edit(ADR, n));
      return true;
    }
    var n := target - place;
    if n % 4 != 0 {
      return false;
    }
    if !(-BranchLimit(k) <= n < BranchLimit(k)) {
      return false;
    }
    OrWord(buf, at, Scatter(Shape(k)[0], n / 4));
    OrWordEdit(b, at, Edit(Shape(k)[0], n / 4));
    ok := true;
  }
}
