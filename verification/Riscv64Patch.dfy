/**
  The relocation kinds of jita/riscv64/patch.py against the immediate formats of the RISC-V
  Unprivileged ISA manual (section "Immediate Encoding Variants").
 */
module Riscv64Patch {
  import opened Bits
  import opened Bytes
  import opened Fields
  import opened Relocation
  import opened Wrappers

  datatype Kind = B12 | J20 | Pcrel32

  function Size(k: Kind): nat
  {
    if k == Pcrel32 then 8 else 4
  }

  // ----- The fields that the linker writes -----

  const B_TYPE: Format := [Seg(12, 31, 1), Seg(5, 25, 6), Seg(1, 8, 4), Seg(11, 7, 1)]
  const J_TYPE: Format := [Seg(20, 31, 1), Seg(1, 21, 10), Seg(11, 20, 1), Seg(12, 12, 8)]
  const S_TYPE: Format := [Seg(5, 25, 7), Seg(0, 7, 5)]
  const I_TYPE: Format := [Seg(0, 20, 12)]
  const U_TYPE: Format := [Seg(0, 12, 20)]

  function SplitPcrel(n: int): Option<(int, int)>
  {
    var hi := (n + 0x800) / 0x1000;
    if !(-0x8_0000 <= hi < 0x8_0000) then None else Some((hi, n - hi * 0x1000))
  }

  const STORES: set<nat> := {0x23, 0x27}

  /** The opcode of jalr, which `call` and `tail` end with. */
  const JALR: nat := 0x67

  /** The format of each word; a store keeps its immediate where other second words keep rd. */
  function Shape(k: Kind, field: seq<Byte>): (shape: seq<Format>)
    requires |field| == Size(k)
    ensures 4 * |shape| == Size(k) && forall fmt | fmt in shape :: FitsWord(fmt)
  {
    match k
    case B12 => [B_TYPE]
    case J20 => [J_TYPE]
    case Pcrel32 => [U_TYPE, if field[4] % 0x80 in STORES then S_TYPE else I_TYPE]
  }

  /** The edits of `apply`, or None where it raises LinkError. */
  function Plan(k: Kind, field: seq<Byte>, target: int, place: int): (p: Option<seq<Edit>>)
    requires |field| == Size(k)
    ensures p.Some? ==> Follows(p.value, Shape(k, field))
  {
    var shape := Shape(k, field);
    var n := target - place;
    if k == Pcrel32 then
      match SplitPcrel(n)
      case None => None
      case Some((hi, lo)) => Some([Edit(shape[0], hi), Edit(shape[1], lo)])
    else
      var limit := if k == B12 then 0x1000 else 0x10_0000;
      if n % 2 == 1 then None
      else if !(-limit <= n < limit) then None
      else Some([Edit(shape[0], n)])
  }

  // ----- The immediates that the processor reads -----

  /** imm[12|10:5] in bits 31:25 and imm[4:1|11] in bits 11:7. */
  function BImm(w: nat): int
  {
    Wrap(Slice(w, 31, 1) * 0x1000 + Slice(w, 7, 1) * 0x800 + Slice(w, 25, 6) * 0x20 + Slice(w, 8, 4) * 2, 0x1000)
  }

  /** imm[20|10:1|11|19:12] in bits 31:12. */
  function JImm(w: nat): int
  {
    Wrap(Slice(w, 31, 1) * 0x10_0000 + Slice(w, 12, 8) * 0x1000 + Slice(w, 20, 1) * 0x800 + Slice(w, 21, 10) * 2,
         0x10_0000)
  }

  /** imm[11:5] in bits 31:25 and imm[4:0] in bits 11:7. */
  function SImm(w: nat): int { Wrap(Slice(w, 25, 7) * 0x20 + Slice(w, 7, 5), 0x800) }

  function IImm(w: nat): int { Wrap(Slice(w, 20, 12), 0x800) }

  function UImm(w: nat): int { Wrap(Slice(w, 12, 20), 0x8_0000) }

  /** Jumps go to even addresses: jalr clears bit 0 of its sum. */
  function Landing(opcode: nat, sum: int): int
  {
    if opcode == JALR then sum - sum % 2 else sum
  }

  /** The address that the patched instruction or pair at `place` refers to. */
  function Address(k: Kind, field: seq<Byte>, place: int): int
    requires |field| == Size(k)
  {
    match k
    case B12 => place + BImm(Word(field, 0))
    case J20 => place + JImm(Word(field, 0))
    case Pcrel32 =>
      var auipc := place + UImm(Word(field, 0)) * 0x1000;
      var second := Word(field, 1);
      var opcode := Slice(second, 0, 7);
      Landing(opcode, auipc + if opcode in STORES then SImm(second) else IImm(second))
  }

  // ----- Slices of a displacement rejoin to it -----

  lemma JoinB(n: int)
    ensures Slice(n, 12, 1) * 0x1000 + Slice(n, 11, 1) * 0x800 + Slice(n, 5, 6) * 0x20 + Slice(n, 1, 4) * 2
         == n / 2 % 0x1000 * 2
  {
    hide Slice, Pow2;
    SliceJoin(n, 11, 1, 1); SliceJoin(n, 5, 6, 2); SliceJoin(n, 1, 4, 8);
    SliceOf(n, 1, 12);
    PowTable();
  }

  lemma JoinJ(n: int)
    ensures Slice(n, 20, 1) * 0x10_0000 + Slice(n, 12, 8) * 0x1000 + Slice(n, 11, 1) * 0x800 + Slice(n, 1, 10) * 2
         == n / 2 % 0x10_0000 * 2
  {
    hide Slice, Pow2;
    SliceJoin(n, 12, 8, 1); SliceJoin(n, 11, 1, 9); SliceJoin(n, 1, 10, 10);
    SliceOf(n, 1, 20);
    PowTable();
  }

  lemma JoinS(n: int)
    ensures Slice(n, 5, 7) * 0x20 + Slice(n, 0, 5) == n % 0x1000
  {
    hide Slice, Pow2;
    SliceJoin(n, 0, 5, 7);
    SliceOf(n, 0, 12);
    PowTable();
  }

  lemma Formats()
    ensures FitsWord(B_TYPE) && FitsWord(J_TYPE) && FitsWord(S_TYPE) && FitsWord(I_TYPE) && FitsWord(U_TYPE)
  {
  }

  // ----- A patched word, read back -----

  lemma LandsB(w: nat, n: int)
    requires Clear(B_TYPE, w) && -0x1000 <= n < 0x1000 && n % 2 == 0
    ensures BImm(Or(w, Scatter(B_TYPE, n))) == n
  {
    hide Slice, Pow2, Scatter, Or, WellFormed, Clear, Wrap;
    Formats();
    PatchedField(B_TYPE, w, n, 0); PatchedField(B_TYPE, w, n, 1);
    PatchedField(B_TYPE, w, n, 2); PatchedField(B_TYPE, w, n, 3);
    JoinB(n);
    EvenWrap(n, 0x1000);
  }

  lemma LandsJ(w: nat, n: int)
    requires Clear(J_TYPE, w) && -0x10_0000 <= n < 0x10_0000 && n % 2 == 0
    ensures JImm(Or(w, Scatter(J_TYPE, n))) == n
  {
    hide Slice, Pow2, Scatter, Or, WellFormed, Clear, Wrap;
    Formats();
    PatchedField(J_TYPE, w, n, 0); PatchedField(J_TYPE, w, n, 1);
    PatchedField(J_TYPE, w, n, 2); PatchedField(J_TYPE, w, n, 3);
    JoinJ(n);
    EvenWrap(n, 0x10_0000);
  }

  lemma EvenWrap(n: int, limit: int)
    requires limit == 0x1000 || limit == 0x10_0000
    requires -limit <= n < limit && n % 2 == 0
    ensures Wrap(n / 2 % limit * 2, limit) == n
  {
    assert n / 2 % limit * 2 == if n < 0 then n + 2 * limit else n;
  }

  lemma LandsLo12(w: nat, lo: int)
    requires -0x800 <= lo < 0x800
    ensures Clear(S_TYPE, w) ==> SImm(Or(w, Scatter(S_TYPE, lo))) == lo
    ensures Clear(I_TYPE, w) ==> IImm(Or(w, Scatter(I_TYPE, lo))) == lo
    ensures Slice(Or(w, Scatter(S_TYPE, lo)), 0, 7) == Slice(w, 0, 7) == Slice(Or(w, Scatter(I_TYPE, lo)), 0, 7)
  {
    hide Slice, Pow2, Scatter, Or, WellFormed, Clear;
    Formats();
    PatchedOther(S_TYPE, w, lo, 0, 7);
    PatchedOther(I_TYPE, w, lo, 0, 7);
    PowTable();
    if Clear(S_TYPE, w) {
      PatchedField(S_TYPE, w, lo, 0); PatchedField(S_TYPE, w, lo, 1);
      JoinS(lo);
    }
    if Clear(I_TYPE, w) {
      PatchedField(I_TYPE, w, lo, 0);
      SliceOf(lo, 0, 12);
    }
  }

  lemma LandsU(w: nat, hi: int)
    requires Clear(U_TYPE, w) && -0x8_0000 <= hi < 0x8_0000
    ensures UImm(Or(w, Scatter(U_TYPE, hi))) == hi
  {
    hide Slice, Pow2, Scatter, Or, WellFormed, Clear;
    Formats();
    PatchedField(U_TYPE, w, hi, 0);
    SliceOf(hi, 0, 20);
    PowTable();
  }

  lemma FirstByte(bytes: seq<Byte>)
    requires |bytes| == 8
    ensures Slice(Word(bytes, 1), 0, 7) == bytes[4] % 0x80
  {
    hide Pow2;
    PowTable();
    var w := bytes[4..8];
    assert FromLE(w) == w[0] + 256 * FromLE(w[1..]);
    SliceOf(FromLE(w), 0, 7);
  }

  // ----- Main results -----

  predicate EndsWithJalr(k: Kind, field: seq<Byte>)
    requires |field| == Size(k)
  {
    k == Pcrel32 && field[4] % 0x80 == JALR
  }

  /** `call` or `tail` to an odd address, which `apply` accepts. */
  predicate OddJump(k: Kind, field: seq<Byte>, target: int)
    requires |field| == Size(k)
  {
    EndsWithJalr(k, field) && target % 2 == 1
  }

  /**
    The one displacement that only clearing bit 0 reaches. It is odd, so only an odd place has it to
    an even address.
   */
  predicate EdgeJump(k: Kind, field: seq<Byte>, target: int, place: int)
    requires |field| == Size(k)
  {
    EndsWithJalr(k, field) && target % 2 == 0 && target - place == -0x8000_0801
  }

  /**
    What `apply` writes into a clear field makes the instruction refer to the target, except that
    `call` and `tail` to an odd address jump to the byte before it.
   */
  lemma Lands(k: Kind, field: seq<Byte>, target: int, place: int)
    requires |field| == Size(k) && Plan(k, field, target, place).Some?
    requires FieldClear(field, Shape(k, field))
    ensures Address(k, OrEdits(field, Plan(k, field, target, place).value), place)
         == if OddJump(k, field, target) then target - 1 else target
  {
    hide Plan, Address, FieldClear, OrEdits;
    match k
    case B12 => LandsBranch(k, field, target, place);
    case J20 => LandsBranch(k, field, target, place);
    case Pcrel32 => LandsPair(field, target, place);
  }

  lemma LandsBranch(k: Kind, field: seq<Byte>, target: int, place: int)
    requires !k.Pcrel32? && |field| == 4 && Plan(k, field, target, place).Some?
    requires FieldClear(field, Shape(k, field))
    ensures Address(k, OrEdits(field, Plan(k, field, target, place).value), place) == target
  {
    hide Slice, Pow2, Scatter, Or, FitsWord, Clear, OrEdits, FromLE, BImm, JImm, SImm, IImm, UImm, Word, SplitPcrel;
    var edits := Plan(k, field, target, place).value;
    var n := target - place;
    var w := Word(field, 0);
    assert edits[0].value == n && n % 2 == 0 && Clear(Shape(k, field)[0], w);
    OrEditsWord(field, edits, 0);
    hide Plan, Shape, FieldClear;
    if k.B12? {
      LandsB(w, n);
    } else {
      LandsJ(w, n);
    }
  }

  lemma LandsPair(field: seq<Byte>, target: int, place: int)
    requires |field| == 8 && Plan(Pcrel32, field, target, place).Some?
    requires FieldClear(field, Shape(Pcrel32, field))
    ensures Address(Pcrel32, OrEdits(field, Plan(Pcrel32, field, target, place).value), place)
         == Landing(field[4] % 0x80, target)
  {
    hide Slice, Pow2, Scatter, Or, FitsWord, Clear, OrEdits, FromLE, SImm, IImm, UImm, Word, Landing;
    var edits := Plan(Pcrel32, field, target, place).value;
    PcrelParts(target - place);
    var (hi, lo) := SplitPcrel(target - place).value;
    assert edits[0].value == hi && edits[1].value == lo;
    hide SplitPcrel;
    OrEditsWord(field, edits, 0);
    OrEditsWord(field, edits, 1);
    FirstByte(field);
    LandsU(Word(field, 0), hi);
    LandsLo12(Word(field, 1), lo);
  }

  /** `tail` at address 0 to address 1 is accepted, and jumps to address 0. */
  lemma OddJumpExample()
    ensures var tail := [0x17, 0x03, 0, 0, 0x67, 0, 0x03, 0];
      && FieldClear(tail, Shape(Pcrel32, tail)) && Plan(Pcrel32, tail, 1, 0).Some?
      && Address(Pcrel32, OrEdits(tail, Plan(Pcrel32, tail, 1, 0).value), 0) == 0
  {
    var tail: seq<Byte> := [0x17, 0x03, 0, 0, 0x67, 0, 0x03, 0];
    TailWords(tail);
    hide FromLE, Pow2, Address, OrEdits, Clear, FitsWord, Shape, Plan;
    TailJumps(tail);
  }

  lemma TailWords(tail: seq<Byte>)
    requires tail == [0x17, 0x03, 0, 0, 0x67, 0, 0x03, 0]
    ensures Word(tail, 0) == 0x317 && Word(tail, 1) == 0x3_0067
  {
    assert tail[0..4] == [0x17, 0x03, 0, 0] && tail[4..8] == [0x67, 0, 0x03, 0];
    WordOf(0x17, 0x03, 0, 0);
    WordOf(0x67, 0, 0x03, 0);
    hide FromLE;
  }

  lemma TailJumps(tail: seq<Byte>)
    requires |tail| == 8 && tail[4] == 0x67 && Word(tail, 0) == 0x317 && Word(tail, 1) == 0x3_0067
    ensures FieldClear(tail, Shape(Pcrel32, tail)) && Plan(Pcrel32, tail, 1, 0).Some?
    ensures Address(Pcrel32, OrEdits(tail, Plan(Pcrel32, tail, 1, 0).value), 0) == 0
  {
    TailClear();
    hide FromLE, Pow2, Address, OrEdits, Clear, FitsWord, Word;
    Lands(Pcrel32, tail, 1, 0);
  }

  lemma TailClear()
    ensures Clear(U_TYPE, 0x317) && Clear(I_TYPE, 0x3_0067)
  {
    hide Pow2;
    PowTable();
  }

  lemma WordOf(a: Byte, b: Byte, c: Byte, d: Byte)
    ensures FromLE([a, b, c, d]) == a + 0x100 * b + 0x1_0000 * c + 0x100_0000 * d
  {
    assert FromLE([d]) == d;
    FromCons(c, [d]);
    FromCons(b, [c, d]);
    FromCons(a, [b, c, d]);
    hide FromLE;
  }

  lemma FromCons(a: Byte, rest: seq<Byte>)
    ensures FromLE([a] + rest) == a + 0x100 * FromLE(rest)
  {
    assert ([a] + rest)[1..] == rest;
  }

  lemma PcrelParts(n: int)
    requires SplitPcrel(n).Some?
    ensures var (hi, lo) := SplitPcrel(n).value;
      n == hi * 0x1000 + lo && -0x800 <= lo < 0x800 && -0x8_0000 <= hi < 0x8_0000
  {
  }

  lemma Reach(k: Kind, place: int, any: seq<Byte>)
    requires |any| == Size(k)
    ensures -0x1_0000_0000 < Address(k, any, place) - place < 0x1_0000_0000
  {
    hide Slice, FromLE, Wrap, Word;
  }

  /**
    Where `apply` refuses the nearest number of an address, no contents of the field reach that
    address, but for the edge of jalr.
   */
  lemma Misses(k: Kind, field: seq<Byte>, target: int, place: int, any: seq<Byte>)
    requires |field| == |any| == Size(k) && Plan(k, field, Nearest(target, place), place).None?
    ensures SameAddress(Address(k, any, place), target) ==> EdgeJump(k, any, Nearest(target, place), place)
  {
    hide Address, Plan, Nearest, SameAddress, EdgeJump;
    Reach(k, place, any);
    MissesNear(k, field, Nearest(target, place), place, any);
    if SameAddress(Address(k, any, place), target) {
      ReachesNearest(Address(k, any, place), target, place);
    }
  }

  lemma MissesNear(k: Kind, field: seq<Byte>, target: int, place: int, any: seq<Byte>)
    requires |field| == |any| == Size(k) && Plan(k, field, target, place).None?
    ensures Address(k, any, place) == target ==> EdgeJump(k, any, target, place)
  {
    hide Slice, FromLE, Wrap, Word;
    match k
    case B12 => EvenReach(any, target, place);
    case J20 => EvenReach(any, target, place);
    case Pcrel32 => MissesPair(target, place, any);
  }

  lemma MissesPair(target: int, place: int, any: seq<Byte>)
    requires |any| == 8 && SplitPcrel(target - place).None?
    ensures Address(Pcrel32, any, place) == target ==> EdgeJump(Pcrel32, any, target, place)
  {
    hide Slice, FromLE, Wrap, Word, SplitPcrel;
    var first, second := Word(any, 0), Word(any, 1);
    FirstByte(any);
    if Address(Pcrel32, any, place) == target {
      var lo := if Slice(second, 0, 7) in STORES then SImm(second) else IImm(second);
      PcrelReach(UImm(first), lo, target - place);
      PcrelReach(UImm(first), lo, target + 1 - place);
      assert UImm(first) * 0x1000 + lo == target + 1 - place;
      PcrelEdge(target - place);
    }
  }

  lemma PcrelEdge(n: int)
    requires SplitPcrel(n).None? && SplitPcrel(n + 1).Some?
    ensures n == -0x8000_0801
  {
  }

  /** Whatever a branch field holds, its displacement is even and in range. */
  lemma EvenReach(any: seq<Byte>, target: int, place: int)
    requires |any| == 4
    ensures BImm(Word(any, 0)) % 2 == 0 && -0x1000 <= BImm(Word(any, 0)) < 0x1000
    ensures JImm(Word(any, 0)) % 2 == 0 && -0x10_0000 <= JImm(Word(any, 0)) < 0x10_0000
  {
    hide Slice, FromLE, Word, Wrap;
    var w := Word(any, 0);
    WrapEven(Slice(w, 31, 1) * 0x800 + Slice(w, 7, 1) * 0x400 + Slice(w, 25, 6) * 0x10 + Slice(w, 8, 4), 0x1000);
    WrapEven(Slice(w, 31, 1) * 0x8_0000 + Slice(w, 12, 8) * 0x800 + Slice(w, 20, 1) * 0x400 + Slice(w, 21, 10),
             0x10_0000);
  }

  lemma WrapEven(h: int, half: int)
    requires half == 0x1000 || half == 0x10_0000
    ensures Wrap(2 * h, half) % 2 == 0
  {
    var q := (2 * h + half) / (2 * half);
    assert Wrap(2 * h, half) == 2 * h - q * (2 * half);
    DivModUnique(Wrap(2 * h, half), 2, h - q * half, 0);
  }

  lemma PcrelReach(hi: int, lo: int, n: int)
    requires -0x8_0000 <= hi < 0x8_0000 && -0x800 <= lo < 0x800
    ensures hi * 0x1000 + lo == n ==> SplitPcrel(n).Some?
  {
    if hi * 0x1000 + lo == n {
      DivModUnique(n + 0x800, 0x1000, hi, lo + 0x800);
    }
  }

  /** The contents that reach the target across the edge are those for the address after it. */
  lemma EdgeReached(k: Kind, field: seq<Byte>, target: int, place: int)
    requires |field| == Size(k) && EdgeJump(k, field, target, place)
    requires FieldClear(field, Shape(k, field))
    ensures Plan(k, field, target + 1, place).Some?
    ensures Address(k, OrEdits(field, Plan(k, field, target + 1, place).value), place) == target
  {
    hide FieldClear, OrEdits, Address, Shape;
    Lands(k, field, target + 1, place);
  }

  /** Contents that keep the bits outside the field keep the opcode. */
  lemma SameOpcode(k: Kind, field: seq<Byte>, any: seq<Byte>)
    requires |field| == |any| == Size(k) && SameOutside(any, field, Shape(k, field))
    ensures EndsWithJalr(k, any) == EndsWithJalr(k, field)
  {
    hide Bit, Pow2, FromLE, Word;
    if k == Pcrel32 {
      var fmt := Shape(k, field)[1];
      var v, w := Word(any, 1), Word(field, 1);
      forall b: nat | b < 7
        ensures Bit(Slice(v, 0, 7), b) == Bit(Slice(w, 0, 7), b)
      {
        assert !Covered(fmt, b);
        assert SameBit(any, field, 1, b);
        SliceLow(v, 7);
        SliceLow(w, 7);
        BitMod(v, 7, b);
        BitMod(w, 7, b);
      }
      BitsEqual(Slice(v, 0, 7), Slice(w, 0, 7), 7);
      FirstByte(any);
      FirstByte(field);
    }
  }

  lemma JalrIsEven(any: seq<Byte>, place: int)
    requires |any| == 8 && EndsWithJalr(Pcrel32, any)
    ensures Address(Pcrel32, any, place) % 2 == 0
  {
    hide Slice, FromLE, Word, SImm, IImm, UImm;
    FirstByte(any);
  }

  /** Only the displacement matters. */
  lemma PlanIsRelative(k: Kind, field: seq<Byte>, target: int, place: int, delta: int)
    requires |field| == Size(k)
    ensures Plan(k, field, target + delta, place + delta) == Plan(k, field, target, place)
  {
  }

  method Apply(k: Kind, buf: array<Byte>, at: nat, target: int, place: int) returns (ok: bool)
    requires at + Size(k) <= buf.Length
    modifies buf
    ensures ok == Plan(k, old(buf[at..at + Size(k)]), target, place).Some?
    ensures ok ==> buf[..] == old(buf[..at])
                              + OrEdits(old(buf[at..at + Size(k)]),
                                        Plan(k, old(buf[at..at + Size(k)]), target, place).value)
                              + old(buf[at + Size(k)..])
    ensures !ok ==> buf[..] == old(buf[..])
  {
    hide OrEdits, OrWordAt, Scatter, FitsWord;
    var n := target - place;
    ghost var b := buf[..];
    assert b[..at] == buf[..at] && b[at..at + Size(k)] == buf[at..at + Size(k)]
      && b[at + Size(k)..] == buf[at + Size(k)..];
    if k == Pcrel32 {
      var parts := SplitPcrel(n);
      if parts.None? {
        return false;
      }
      var (hi, lo) := parts.value;
      OrWord(buf, at, Scatter(U_TYPE, hi));
      OrWordElsewhere(b, at, Scatter(U_TYPE, hi));
      var second := buf[at + 4] % 0x80;
      assert buf[at + 4] == buf[..][at + 4] == b[at + 4];
      var fmt := if second in STORES then S_TYPE else I_TYPE;
      OrWord(buf, at + 4, Scatter(fmt, lo));
      OrWordEdits(b, at, Edit(U_TYPE, hi), Edit(fmt, lo));
      return true;
    }
    if n % 2 == 1 {
      return false;
    }
    var limit := if k == B12 then 0x1000 else 0x10_0000;
    if !(-limit <= n < limit) {
      return false;
    }
    var fmt := if k == B12 then B_TYPE else J_TYPE;
    OrWord(buf, at, Scatter(fmt, n));
    OrWordEdit(b, at, Edit(fmt, n));
    ok := true;
  }
}
