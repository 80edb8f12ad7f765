/**
  `li.w` and `li.d` on loongarch64: jita/loongarch64/encoder.py splits a constant into four parts and
  leaves out each part that the sign extension of the parts below produces.
 */
module Loong64Li {
  import opened Bits
  import opened Loong64Machine

  // ----- Instruction words -----

  function Lu12iWord(rd: RegNo, part: nat): nat { Or(Or(0x14000000, part * 0x20), rd) }

  function Lu32iWord(rd: RegNo, part: nat): nat { Or(Or(0x16000000, part * 0x20), rd) }

  function Lu52iWord(rd: RegNo, rj: RegNo, part: nat): nat { Or(Or(Or(0x03000000, part * 0x400), rj * 0x20), rd) }

  function OriWord(rd: RegNo, rj: RegNo, part: nat): nat { Or(Or(Or(0x03800000, part * 0x400), rj * 0x20), rd) }

  function AddiWord(rd: RegNo, part: nat): nat { Or(Or(0x02800000, part * 0x400), rd) }

  function ZeroWord(rd: RegNo): nat { Or(0x00150000, rd) }

  lemma Sum20(op: nat, part: nat, rd: RegNo)
    requires op % 0x200_0000 == 0 && part < 0x10_0000
    ensures Or(Or(op, part * 0x20), rd) == op + part * 0x20 + rd
  {
    hide *;
    PowTable();
    var q := op / 0x200_0000;
    OrOnto(q, op, part * 0x20, 25, 0x200_0000);
    OrOnto(q * 0x10_0000 + part, op + part * 0x20, rd, 5, 0x20);
  }

  lemma Sum12(op: nat, part: nat, rj: RegNo, rd: RegNo)
    requires op % 0x40_0000 == 0 && part < 0x1000
    ensures Or(Or(Or(op, part * 0x400), rj * 0x20), rd) == op + part * 0x400 + rj * 0x20 + rd
    ensures Or(Or(op, part * 0x400), rd) == op + part * 0x400 + rd
  {
    hide *;
    PowTable();
    var q := op / 0x40_0000;
    OrOnto(q, op, part * 0x400, 22, 0x40_0000);
    OrOnto(q * 0x1000 + part, op + part * 0x400, rj * 0x20, 10, 0x400);
    OrOnto(q * 0x2_0000 + part * 0x20 + rj, op + part * 0x400 + rj * 0x20, rd, 5, 0x20);
    OrOnto(q * 0x2_0000 + part * 0x20, op + part * 0x400, rd, 5, 0x20);
  }

  lemma Fields20(op: nat, part: nat, rd: RegNo)
    requires op < 0x80 && part < 0x10_0000
    ensures var w := op * 0x200_0000 + part * 0x20 + rd;
      w / 0x200_0000 == op && (w / 0x20) % 0x10_0000 == part && w % 32 == rd
  {
    var w := op * 0x200_0000 + part * 0x20 + rd;
    DivModUnique(w, 0x20, op * 0x10_0000 + part, rd);
    DivModUnique(op * 0x10_0000 + part, 0x10_0000, op, part);
    DivModUnique(w, 0x200_0000, op, part * 0x20 + rd);
  }

  lemma Fields12(op: nat, part: nat, rj: RegNo, rd: RegNo)
    requires op < 0x14 && part < 0x1000
    ensures var w := op * 0x40_0000 + part * 0x400 + rj * 0x20 + rd;
      w / 0x40_0000 == op && (w / 0x400) % 0x1000 == part && (w / 0x20) % 32 == rj && w % 32 == rd
      && w / 0x200_0000 < 3
  {
    var w := op * 0x40_0000 + part * 0x400 + rj * 0x20 + rd;
    DivModUnique(w, 0x20, op * 0x2_0000 + part * 0x20 + rj, rd);
    DivModUnique(op * 0x2_0000 + part * 0x20 + rj, 32, op * 0x1000 + part, rj);
    DivModUnique(w, 0x400, op * 0x1000 + part, rj * 0x20 + rd);
    DivModUnique(op * 0x1000 + part, 0x1000, op, part);
    DivModUnique(w, 0x40_0000, op, part * 0x400 + rj * 0x20 + rd);
  }

  lemma Decodes20(rd: RegNo, part: nat)
    requires part < 0x10_0000
    ensures Decode(Lu12iWord(rd, part)) == Lu12iW(rd, part)
    ensures Decode(Lu32iWord(rd, part)) == Lu32iD(rd, part)
  {
    hide Or;
    Sum20(0x14000000, part, rd);
    Sum20(0x16000000, part, rd);
    Fields20(0x0A, part, rd);
    Fields20(0x0B, part, rd);
  }

  lemma Decodes12(rd: RegNo, rj: RegNo, part: nat)
    requires part < 0x1000
    ensures Decode(Lu52iWord(rd, rj, part)) == Lu52iD(rd, rj, part)
    ensures Decode(OriWord(rd, rj, part)) == Ori(rd, rj, part)
    ensures Decode(AddiWord(rd, part)) == AddiW(rd, 0, part)
  {
    hide Or;
    Sum12(0x03000000, part, rj, rd);
    Sum12(0x03800000, part, rj, rd);
    Sum12(0x02800000, part, 0, rd);
    Fields12(0x0C, part, rj, rd);
    Fields12(0x0E, part, rj, rd);
    Fields12(0x0A, part, 0, rd);
  }

  lemma DecodesZero(rd: RegNo)
    ensures Decode(ZeroWord(rd)) == OrReg(rd, 0, 0)
  {
    hide Or, Pow2;
    PowTable();
    OrOnto(0xA800, 0x00150000, rd, 5, 0x20);
    var w := 0x00150000 + rd;
    DivModUnique(w, 0x20, 0xA800, rd);
    DivModUnique(w, 0x400, 0x540, rd);
    DivModUnique(w, 0x8000, 0x2A, rd);
    DivModUnique(w, 0x40_0000, 0, w);
    DivModUnique(w, 0x200_0000, 0, w);
  }

  // ----- Loading a register in stages -----

  ghost predicate Loads(words: seq<nat>, rd: RegNo, v: int)
  {
    forall regs: Regs :: Run(words, regs) == Halted(Write(regs, rd, v))
  }

  lemma RunOne(w: nat, regs: Regs)
    ensures Run([w], regs)
      == if Decode(w).Illegal? then Trap else Halted(Write(regs, Decode(w).rd, Result(Decode(w), regs)))
  {
  }

  lemma LoadsThen(a: seq<nat>, w: nat, rd: RegNo, u: int, v: int)
    requires Loads(a, rd, u)
    requires !Decode(w).Illegal? && Decode(w).rd == rd
    requires forall regs: Regs :: rd != 0 && regs[rd] == u % GRLEN ==> Result(Decode(w), regs) % GRLEN == v % GRLEN
    ensures Loads(a + [w], rd, v)
  {
    hide Decode, Result;
    forall regs: Regs
      ensures Run(a + [w], regs) == Halted(Write(regs, rd, v))
    {
      RunAppend(a, [w], regs);
      RunOne(w, Write(regs, rd, u));
    }
  }

  lemma LoadsFirst(w: nat, rd: RegNo, v: int)
    requires !Decode(w).Illegal? && Decode(w).rd == rd
    requires forall regs: Regs :: Result(Decode(w), regs) % GRLEN == v % GRLEN
    ensures Loads([w], rd, v)
  {
    hide Decode, Result;
    forall regs: Regs
      ensures Run([w], regs) == Halted(Write(regs, rd, v))
    {
      RunOne(w, regs);
    }
  }

  // ----- The compiler -----

  const ONES := [0xFFF, 0xF_FFFF, 0xF_FFFF, 0xFFF]
  const TOP := [0x800, 0x8_0000, 0x8_0000, 0x800]

  /** The four parts, low to high: bits 0-11, 12-31, 32-51 and 52-63. */
  predicate Parts(parts: seq<nat>)
  {
    |parts| == 4 && forall k | 0 <= k < 4 :: parts[k] <= ONES[k]
  }

  function Value(parts: seq<nat>): nat
    requires |parts| == 4
  {
    parts[0] + parts[1] * 0x1000 + parts[2] * 0x1_0000_0000 + parts[3] * 0x10_0000_0000_0000
  }

  /** Part k repeats the sign of part k - 1 (of zero, for k = 0). */
  predicate Redundant(parts: seq<nat>, k: nat)
    requires Parts(parts) && k < 4
  {
    var zero := parts[k] == 0;
    zero != (parts[k] == ONES[k]) && zero != (k > 0 && parts[k - 1] / TOP[k - 1] % 2 == 1)
  }

  /** The test in the source picks out exactly the sign extension of the part below. */
  lemma RedundantMeans(parts: seq<nat>, k: nat)
    requires Parts(parts) && k < 4
    ensures Redundant(parts, k) <==> parts[k] == if k > 0 && parts[k - 1] >= TOP[k - 1] then ONES[k] else 0
  {
    if k > 0 {
      assert parts[k - 1] <= ONES[k - 1];
    }
  }

  // What the register holds after the parts up to 31, 51 and 63 are loaded.

  function Low(parts: seq<nat>): int
    requires |parts| == 4
  {
    Wrap(parts[0] + parts[1] * 0x1000, 0x8000_0000)
  }

  function Mid(parts: seq<nat>): int
    requires |parts| == 4
  {
    Wrap(parts[2], 0x8_0000) * 0x1_0000_0000 + parts[0] + parts[1] * 0x1000
  }

  lemma Skips(parts: seq<nat>)
    requires Parts(parts)
    ensures Redundant(parts, 2) ==> Low(parts) == Mid(parts)
    ensures Redundant(parts, 3) ==> Mid(parts) % GRLEN == Value(parts) % GRLEN
    ensures Redundant(parts, 0) && Redundant(parts, 1) && Redundant(parts, 2) ==> Mid(parts) == 0
  {
    hide Redundant;
    assert parts[0] <= ONES[0] && parts[1] <= ONES[1] && parts[2] <= ONES[2] && parts[3] <= ONES[3];
    RedundantMeans(parts, 0); RedundantMeans(parts, 1); RedundantMeans(parts, 2); RedundantMeans(parts, 3);
    var low := parts[0] + parts[1] * 0x1000;
    SkipsHigh(low, parts[2], parts[3]);
    SkipsMid(low, parts[2]);
    hide Wrap;
  }

  /** Bits 32 to 51 left out: the sign of bit 31 is already there. */
  lemma SkipsMid(low: nat, p2: nat)
    requires low < 0x1_0000_0000
    ensures p2 == (if low >= 0x8000_0000 then 0xF_FFFF else 0) ==>
      Wrap(low, 0x8000_0000) == Wrap(p2, 0x8_0000) * 0x1_0000_0000 + low
    ensures Wrap(0, 0x8_0000) == 0
  {
  }

  /** Bits 52 to 63 left out: the sign of bit 51 is already there. */
  lemma SkipsHigh(low: nat, p2: nat, p3: nat)
    requires low < 0x1_0000_0000 && p2 < 0x10_0000
    ensures p3 == (if p2 >= 0x8_0000 then 0xFFF else 0) ==>
      (Wrap(p2, 0x8_0000) * 0x1_0000_0000 + low) % GRLEN
        == (low + p2 * 0x1_0000_0000 + p3 * 0x10_0000_0000_0000) % GRLEN
  {
    var v := low + p2 * 0x1_0000_0000;
    if p2 >= 0x8_0000 {
      assert Wrap(p2, 0x8_0000) == p2 - 0x10_0000;
      var w := v + 0xFFF * 0x10_0000_0000_0000;
      DivModUnique(w - GRLEN, GRLEN, -1, w);
      DivModUnique(w, GRLEN, 0, w);
    } else {
      assert Wrap(p2, 0x8_0000) == p2;
    }
  }

  lemma FirstWords(rd: RegNo, p0: nat, p1: nat)
    requires p0 < 0x1000 && p1 < 0x10_0000
    ensures Loads([ZeroWord(rd)], rd, 0)
    ensures Loads([OriWord(rd, 0, p0)], rd, p0)
    ensures Loads([AddiWord(rd, p0)], rd, Wrap(p0, 0x800))
    ensures Loads([Lu12iWord(rd, p1)], rd, Wrap(p1 * 0x1000, 0x8000_0000))
  {
    hide ZeroWord, OriWord, AddiWord, Lu12iWord, Or, Loads, Wrap;
    FirstZero(rd);
    FirstOri(rd, p0);
    FirstAddi(rd, p0);
    FirstLu12i(rd, p1);
  }

  lemma FirstZero(rd: RegNo)
    ensures Loads([ZeroWord(rd)], rd, 0)
  {
    hide ZeroWord, Or, Loads, Decode;
    DecodesZero(rd);
    OrZero(0);
    LoadsFirst(ZeroWord(rd), rd, 0);
  }

  lemma FirstOri(rd: RegNo, p0: nat)
    requires p0 < 0x1000
    ensures Loads([OriWord(rd, 0, p0)], rd, p0)
  {
    hide OriWord, Lu52iWord, AddiWord, Or, Loads, Decode;
    Decodes12(rd, 0, p0);
    OrZero(p0);
    LoadsFirst(OriWord(rd, 0, p0), rd, p0);
  }

  lemma FirstAddi(rd: RegNo, p0: nat)
    requires p0 < 0x1000
    ensures Loads([AddiWord(rd, p0)], rd, Wrap(p0, 0x800))
  {
    hide OriWord, Lu52iWord, AddiWord, Or, Loads, Decode, Wrap;
    Decodes12(rd, 0, p0);
    WrapTwice(p0);
    LoadsFirst(AddiWord(rd, p0), rd, Wrap(p0, 0x800));
  }

  /** A number that fits 12 signed bits is not changed by reduction to 32. */
  lemma WrapTwice(p0: nat)
    ensures Wrap(Wrap(p0, 0x800), 0x8000_0000) == Wrap(p0, 0x800)
  {
    var v := Wrap(p0, 0x800);
    DivModUnique(v + 0x8000_0000, 0x1_0000_0000, 0, v + 0x8000_0000);
  }

  lemma FirstLu12i(rd: RegNo, p1: nat)
    requires p1 < 0x10_0000
    ensures Loads([Lu12iWord(rd, p1)], rd, Wrap(p1 * 0x1000, 0x8000_0000))
  {
    hide Lu12iWord, Lu32iWord, Or, Loads, Decode, Wrap;
    Decodes20(rd, p1);
    LoadsFirst(Lu12iWord(rd, p1), rd, Wrap(p1 * 0x1000, 0x8000_0000));
  }

  lemma OrZero(x: nat)
    ensures Or(0, x) == x && Or(0, 0) == 0
  {
  }

  lemma OriAdds(head: seq<nat>, rd: RegNo, u: int, p0: nat)
    requires p0 < 0x1000 && u % 0x1000 == 0 && Loads(head, rd, u)
    ensures Loads(head + [OriWord(rd, rd, p0)], rd, u + p0)
  {
    hide OriWord, Or, Loads;
    Decodes12(rd, rd, p0);
    OrLow12(u, p0);
    LoadsThen(head, OriWord(rd, rd, p0), rd, u, u + p0);
  }

  lemma OrLow12(u: int, p0: nat)
    requires p0 < 0x1000 && u % 0x1000 == 0
    ensures u % GRLEN >= 0 && Or(u % GRLEN, p0) % GRLEN == (u + p0) % GRLEN
  {
    hide Or, Pow2;
    ModMod(u, 0x10_0000_0000_0000, 0x1000);
    PowTable();
    OrAligned(u % GRLEN, p0, 12, 0x1000);
    AddMod(u, p0, GRLEN);
  }

  lemma LowPart(parts: seq<nat>, rd: RegNo)
    requires Parts(parts)
    ensures Redundant(parts, 0) && Redundant(parts, 1) ==> Loads([ZeroWord(rd)], rd, Low(parts))
    ensures parts[1] == 0 ==> Loads([OriWord(rd, 0, parts[0])], rd, Low(parts))
    ensures parts[1] != 0 && Redundant(parts, 1) ==> Loads([AddiWord(rd, parts[0])], rd, Low(parts))
    ensures parts[0] == 0 ==> Loads([Lu12iWord(rd, parts[1])], rd, Low(parts))
    ensures Loads([Lu12iWord(rd, parts[1]), OriWord(rd, rd, parts[0])], rd, Low(parts))
  {
    hide ZeroWord, OriWord, AddiWord, Lu12iWord, Or, Loads, Redundant;
    RedundantMeans(parts, 0); RedundantMeans(parts, 1);
    var p0, p1 := parts[0], parts[1];
    assert p0 <= ONES[0] && p1 <= ONES[1];
    FirstWords(rd, p0, p1);
    LowSplit(parts);
    OriAdds([Lu12iWord(rd, p1)], rd, Wrap(p1 * 0x1000, 0x8000_0000), p0);
    assert [Lu12iWord(rd, p1)] + [OriWord(rd, rd, p0)] == [Lu12iWord(rd, p1), OriWord(rd, rd, p0)];
  }

  lemma LowSplit(parts: seq<nat>)
    requires Parts(parts)
    ensures Wrap(parts[1] * 0x1000, 0x8000_0000) % 0x1000 == 0
    ensures Low(parts) == Wrap(parts[1] * 0x1000, 0x8000_0000) + parts[0]
  {
    assert parts[0] <= ONES[0] && parts[1] <= ONES[1];
    assert (parts[0] + parts[1] * 0x1000 + 0x8000_0000) / 0x1_0000_0000
        == (parts[1] * 0x1000 + 0x8000_0000) / 0x1_0000_0000;
  }

  lemma Lu32iKeeps(head: seq<nat>, rd: RegNo, u: int, p2: nat)
    requires p2 < 0x10_0000 && Loads(head, rd, u)
    ensures Loads(head + [Lu32iWord(rd, p2)], rd, Wrap(p2, 0x8_0000) * 0x1_0000_0000 + u % 0x1_0000_0000)
  {
    hide Lu32iWord, Lu12iWord, Or, Loads, Wrap, Decode;
    Decodes20(rd, p2);
    var v := Wrap(p2, 0x8_0000) * 0x1_0000_0000 + u % 0x1_0000_0000;
    ModMod(u, 0x1_0000_0000, 0x1_0000_0000);
    LoadsThen(head, Lu32iWord(rd, p2), rd, u, v);
  }

  lemma Lu52iKeeps(head: seq<nat>, rd: RegNo, u: int, p3: nat)
    requires p3 < 0x1000
    ensures Loads(head, rd, u)
        ==> Loads(head + [Lu52iWord(rd, rd, p3)], rd, p3 * 0x10_0000_0000_0000 + u % 0x10_0000_0000_0000)
    ensures Loads([Lu52iWord(rd, 0, p3)], rd, p3 * 0x10_0000_0000_0000)
  {
    hide Lu52iWord, OriWord, AddiWord, Or, Loads, Wrap, Decode;
    Decodes12(rd, rd, p3);
    if Loads(head, rd, u) {
      ModMod(u, 0x1000, 0x10_0000_0000_0000);
      LoadsThen(head, Lu52iWord(rd, rd, p3), rd, u, p3 * 0x10_0000_0000_0000 + u % 0x10_0000_0000_0000);
    }
    Lu52iFirst(rd, p3);
  }

  lemma Lu52iFirst(rd: RegNo, p3: nat)
    requires p3 < 0x1000
    ensures Loads([Lu52iWord(rd, 0, p3)], rd, p3 * 0x10_0000_0000_0000)
  {
    hide Lu52iWord, OriWord, AddiWord, Or, Loads, Wrap, Decode;
    Decodes12(rd, 0, p3);
    LoadsFirst(Lu52iWord(rd, 0, p3), rd, p3 * 0x10_0000_0000_0000);
  }

  lemma LowBits(parts: seq<nat>)
    requires Parts(parts)
    ensures Low(parts) % 0x1_0000_0000 == parts[0] + parts[1] * 0x1000
  {
    assert parts[0] <= ONES[0] && parts[1] <= ONES[1];
  }

  lemma MidBits(parts: seq<nat>)
    requires Parts(parts)
    ensures Mid(parts) % 0x10_0000_0000_0000 == Value(parts) - parts[3] * 0x10_0000_0000_0000
  {
    assert parts[0] <= ONES[0] && parts[1] <= ONES[1] && parts[2] <= ONES[2];
  }

  lemma LoadsCongruent(words: seq<nat>, rd: RegNo, u: int, v: int)
    requires Loads(words, rd, u) && u % GRLEN == v % GRLEN
    ensures Loads(words, rd, v)
  {
    forall regs: Regs
      ensures Run(words, regs) == Halted(Write(regs, rd, v))
    {
      assert Write(regs, rd, u) == Write(regs, rd, v);
    }
  }

  /** The parts are those of `g`, and what the register holds after some of them are the low bits of `g`. */
  lemma PartsOf(parts: seq<nat>, g: int)
    requires Parts(parts) && Value(parts) == g % GRLEN
    requires -0x8000_0000_0000_0000 <= g < 0x8000_0000_0000_0000
    ensures Low(parts) == Wrap(g, 0x8000_0000) && Mid(parts) == Wrap(g, 0x8_0000_0000_0000)
    ensures g % 0x10_0000_0000_0000 == 0 <==> parts[0] == 0 && parts[1] == 0 && parts[2] == 0
    ensures g % 0x10_0000_0000_0000 == 0 ==> (g == 0 <==> parts[3] == 0)
  {
    assert parts[0] <= ONES[0] && parts[1] <= ONES[1] && parts[2] <= ONES[2] && parts[3] <= ONES[3];
    var lo, p2, p3 := parts[0] + parts[1] * 0x1000, parts[2], parts[3];
    var wraps := if g < 0 then 1 else 0;
    assert g == lo + p2 * 0x1_0000_0000 + p3 * 0x10_0000_0000_0000 - wraps * GRLEN;
    LowOf(g, lo, p2 + p3 * 0x10_0000 - wraps * 0x1_0000_0000);
    MidOf(g, lo, p2, p3 - wraps * 0x1000);
  }

  lemma LowOf(g: int, lo: nat, high: int)
    requires lo < 0x1_0000_0000 && g == lo + high * 0x1_0000_0000
    ensures Wrap(g, 0x8000_0000) == Wrap(lo, 0x8000_0000)
  {
  }

  lemma MidOf(g: int, lo: nat, p2: nat, high: int)
    requires lo < 0x1_0000_0000 && p2 < 0x10_0000 && g == lo + p2 * 0x1_0000_0000 + high * 0x10_0000_0000_0000
    ensures Wrap(g, 0x8_0000_0000_0000) == Wrap(p2, 0x8_0000) * 0x1_0000_0000 + lo
    ensures g % 0x10_0000_0000_0000 == lo + p2 * 0x1_0000_0000
  {
    var top := if p2 >= 0x8_0000 then 1 else 0;
    var n := 0x8_0000_0000_0000;
    DivModUnique(g + n, 2 * n, high + top, lo + (p2 - top * 0x10_0000) * 0x1_0000_0000 + n);
    DivModUnique(p2 + 0x8_0000, 0x10_0000, top, p2 + 0x8_0000 - top * 0x10_0000);
  }

  lemma SignOf(u: nat, half: nat)
    requires 0 < half && u < 2 * half
    ensures Wrap(u, half) == if u >= half then u - 2 * half else u
  {
    DivModUnique(u + half, 2 * half, if u >= half then 1 else 0, if u >= half then u - half else u + half);
  }

  lemma LeavesOutTop(lo: nat, p2: nat, p3: nat, g: int)
    requires lo < 0x1_0000_0000 && p2 < 0x10_0000 && p3 < 0x1000
    requires -0x8000_0000_0000_0000 <= g < 0x8000_0000_0000_0000
    requires g == lo + p2 * 0x1_0000_0000 + p3 * 0x10_0000_0000_0000 - if g < 0 then GRLEN else 0
    ensures p3 == (if p2 >= 0x8_0000 then 0xFFF else 0) <==> Wrap(p2, 0x8_0000) * 0x1_0000_0000 + lo == g
  {
    SignOf(p2, 0x8_0000);
    hide Wrap;
  }

  lemma LeavesOutMid(lo: nat, p2: nat)
    requires lo < 0x1_0000_0000 && p2 < 0x10_0000
    ensures p2 == (if lo >= 0x8000_0000 then 0xF_FFFF else 0)
       <==> Wrap(lo, 0x8000_0000) == Wrap(p2, 0x8_0000) * 0x1_0000_0000 + lo
  {
    SignOf(lo, 0x8000_0000);
    SignOf(p2, 0x8_0000);
    hide Wrap;
  }

  lemma OneWord(p0: nat, p1: nat)
    requires p0 < 0x1000 && p1 < 0x10_0000
    ensures (p1 == 0 && p0 != 0) || p1 == (if p0 >= 0x800 then 0xF_FFFF else 0) || p0 == 0
       <==> var low := Wrap(p0 + p1 * 0x1000, 0x8000_0000); -2048 <= low < 4096 || low % 0x1000 == 0
  {
    SignOf(p0 + p1 * 0x1000, 0x8000_0000);
    hide Wrap;
  }

  lemma LeavesOutParts(parts: seq<nat>, g: int)
    requires Parts(parts) && Value(parts) == g % GRLEN
    requires -0x8000_0000_0000_0000 <= g < 0x8000_0000_0000_0000
    ensures Redundant(parts, 3) <==> Mid(parts) == g
    ensures Redundant(parts, 2) <==> Low(parts) == Mid(parts)
    ensures (parts[1] == 0 && parts[0] != 0) || Redundant(parts, 1) || Redundant(parts, 0)
       <==> -2048 <= Low(parts) < 4096 || Low(parts) % 0x1000 == 0
  {
    hide Redundant, Wrap;
    assert parts[0] <= ONES[0] && parts[1] <= ONES[1] && parts[2] <= ONES[2] && parts[3] <= ONES[3];
    RedundantMeans(parts, 0); RedundantMeans(parts, 1); RedundantMeans(parts, 2); RedundantMeans(parts, 3);
    var lo := parts[0] + parts[1] * 0x1000;
    assert lo >= 0x8000_0000 <==> parts[1] >= 0x8_0000;
    LeavesOutTop(lo, parts[2], parts[3], g);
    LeavesOutMid(lo, parts[2]);
    OneWord(parts[0], parts[1]);
  }

  /** A part is left out exactly if the number is the sign extension of the parts below. */
  lemma LeavesOut(parts: seq<nat>, g: int)
    requires Parts(parts) && Value(parts) == g % GRLEN
    requires -0x8000_0000_0000_0000 <= g < 0x8000_0000_0000_0000
    ensures Redundant(parts, 0) && Redundant(parts, 1) && Redundant(parts, 2) && !Redundant(parts, 3)
       <==> g != 0 && g % 0x10_0000_0000_0000 == 0
    ensures Redundant(parts, 3) <==> Wrap(g, 0x8_0000_0000_0000) == g
    ensures Redundant(parts, 2) <==> Wrap(g, 0x8000_0000) == Wrap(g, 0x8_0000_0000_0000)
    ensures var low := Wrap(g, 0x8000_0000);
      (parts[1] == 0 && parts[0] != 0) || Redundant(parts, 1) || Redundant(parts, 0)
      <==> -2048 <= low < 4096 || low % 0x1000 == 0
  {
    hide Redundant, Wrap, Low, Mid, Value;
    assert parts[0] <= ONES[0] && parts[1] <= ONES[1] && parts[2] <= ONES[2] && parts[3] <= ONES[3];
    RedundantMeans(parts, 0); RedundantMeans(parts, 1); RedundantMeans(parts, 2); RedundantMeans(parts, 3);
    LeavesOutParts(parts, g);
    PartsOf(parts, g);
  }

  lemma SameNumber(value: int, width: nat, g: int)
    requires width == 32 || width == 64
    requires g == Wrap(value, if width == 32 then 0x8000_0000 else 0x8000_0000_0000_0000)
    ensures (if width == 32 then Wrap(value, 0x8000_0000) else value) % GRLEN == g % GRLEN
  {
    if width == 64 {
      var q := (value + 0x8000_0000_0000_0000) / GRLEN;
      DivModUnique(g, GRLEN, value / GRLEN - q, value % GRLEN);
    }
  }

  /**
    How many words a number takes: one for its low 32 bits if 12 of them or the upper 20 make them up, else
    two, and one for each part above that is not the sign extension of what is below; a lone top part
    takes one.
   */
  function Length(value: int, width: nat): nat
  {
    var g := Wrap(value, if width == 32 then 0x8000_0000 else 0x8000_0000_0000_0000);
    var low, mid := Wrap(g, 0x8000_0000), Wrap(g, 0x8_0000_0000_0000);
    if g != 0 && g % 0x10_0000_0000_0000 == 0 then 1
    else
      var first := if -2048 <= low < 4096 || low % 0x1000 == 0 then 1 else 2;
      first + (if mid == low then 0 else 1) + (if g == mid then 0 else 1)
  }

  lemma LengthIs(parts: seq<nat>, value: int, width: nat)
    requires width == 32 || width == 64
    requires Parts(parts) && Value(parts) == (if width == 32 then Wrap(value, 0x8000_0000) else value) % GRLEN
    ensures Length(value, width) ==
      if Redundant(parts, 0) && Redundant(parts, 1) && Redundant(parts, 2) && !Redundant(parts, 3) then 1
      else
        var one := (parts[1] == 0 && parts[0] != 0) || Redundant(parts, 1) || Redundant(parts, 0);
        (if one then 1 else 2) + (if Redundant(parts, 2) then 0 else 1) + (if Redundant(parts, 3) then 0 else 1)
  {
    hide Redundant, Value, Wrap;
    var g := Wrap(value, if width == 32 then 0x8000_0000 else 0x8000_0000_0000_0000);
    SameNumber(value, width, g);
    LeavesOut(parts, g);
  }

  method SplitParts(value: int, width: nat) returns (parts: seq<nat>)
    requires width == 32 || width == 64
    ensures Parts(parts)
    ensures Value(parts) == (if width == 32 then Wrap(value, 0x8000_0000) else value) % GRLEN
    ensures width == 32 ==> Redundant(parts, 2) && Redundant(parts, 3)
  {
    var lo32 := value % 0x1_0000_0000;
    var hi32 := value / 0x1_0000_0000 % 0x1_0000_0000;
    if width == 32 {
      hi32 := if lo32 / 0x8000_0000 % 2 == 1 then 0xFFFF_FFFF else 0;
    }
    parts := [lo32 % 0x1000, lo32 / 0x1000, hi32 % 0x10_0000, hi32 / 0x10_0000];
    Joined(value, lo32, hi32, width);
    RedundantMeans(parts, 2); RedundantMeans(parts, 3);
  }

  lemma Joined(value: int, lo32: nat, hi32: nat, width: nat)
    requires lo32 == value % 0x1_0000_0000
    requires hi32 == if width == 32 then (if lo32 >= 0x8000_0000 then 0xFFFF_FFFF else 0)
                     else value / 0x1_0000_0000 % 0x1_0000_0000
    ensures lo32 + hi32 * 0x1_0000_0000 == (if width == 32 then Wrap(value, 0x8000_0000) else value) % GRLEN
  {
    var q := value / 0x1_0000_0000;
    if width == 32 {
      if lo32 >= 0x8000_0000 {
        DivModUnique(value + 0x8000_0000, 0x1_0000_0000, q + 1, lo32 - 0x8000_0000);
        DivModUnique(lo32 - 0x1_0000_0000, GRLEN, -1, lo32 + hi32 * 0x1_0000_0000);
      } else {
        DivModUnique(value + 0x8000_0000, 0x1_0000_0000, q, lo32 + 0x8000_0000);
        DivModUnique(lo32, GRLEN, 0, lo32);
      }
    } else {
      DivModUnique(value, GRLEN, q / 0x1_0000_0000, lo32 + hi32 * 0x1_0000_0000);
    }
  }

  /**
    `li.d` (width 64) or `li.w` (width 32): the words leave rd equal to the value modulo 2**64, or
    to the sign extension of its low 32 bits, and every other register as it was.
   */
  method LiWords(rd: RegNo, value: int, width: nat) returns (words: seq<nat>)
    requires width == 32 || width == 64
    ensures Loads(words, rd, if width == 32 then Wrap(value, 0x8000_0000) else value)
    ensures 1 <= |words| <= if width == 32 then 2 else 4
    ensures |words| == Length(value, width)
  {
    hide Lu12iWord, Lu32iWord, Lu52iWord, OriWord, AddiWord, ZeroWord, Loads, Low, Value, Wrap, Redundant, Length;
    var parts := SplitParts(value, width);
    var zero := seq(4, k requires 0 <= k < 4 => parts[k] == 0);
    var sext := seq(4, k requires 0 <= k < 4 => Redundant(parts, k));
    var lu12i := Lu12iWord(rd, parts[1]);
    var ori := OriWord(rd, rd, parts[0]);
    var lu32i := Lu32iWord(rd, parts[2]);
    var lu52i := Lu52iWord(rd, rd, parts[3]);
    ghost var goal := if width == 32 then Wrap(value, 0x8000_0000) else value;
    Skips(parts);
    LengthIs(parts, value, width);
    if sext[0] && sext[1] && sext[2] && !sext[3] {
      words := [Lu52iWord(rd, 0, parts[3])];
      MidBits(parts);
      Lu52iKeeps([], rd, 0, parts[3]);
      LoadsCongruent(words, rd, Value(parts), goal);
      return;
    }
    LowPart(parts, rd);
    RedundantMeans(parts, 0);
    if zero[1] && !zero[0] {
      words := [OriWord(rd, 0, parts[0])];
    } else if sext[1] && sext[0] {
      words := [ZeroWord(rd)];
    } else if sext[1] {
      RedundantMeans(parts, 1);
      words := [AddiWord(rd, parts[0])];
    } else if sext[0] {
      words := [lu12i];
    } else {
      words := [lu12i, ori];
    }
    ghost var loaded := Low(parts);
    if !sext[2] {
      LowBits(parts);
      Lu32iKeeps(words, rd, Low(parts), parts[2]);
      words := words + [lu32i];
    }
    loaded := Mid(parts);
    if !sext[3] {
      MidBits(parts);
      Lu52iKeeps(words, rd, Mid(parts), parts[3]);
      words := words + [lu52i];
      loaded := Value(parts);
    }
    LoadsCongruent(words, rd, loaded, goal);
  }
}
