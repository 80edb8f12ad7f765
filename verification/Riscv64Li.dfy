/**
  `li rd, value` on riscv64: the recursive constant compiler of jita/riscv64/encoder.py. Every
  method is proved against the machine that runs the words it emits.
 */
module Riscv64Li {
  import opened Bits
  import opened Riscv64Machine

  /** The list of words that the recursive calls share. */
  class WordList {
    var words: seq<nat>

    constructor ()
      ensures words == []
    {
      words := [];
    }

    method Append(w: nat)
      modifies this
      ensures words == old(words) + [w]
    {
      words := words + [w];
    }
  }

  // ----- Instruction words -----

  function AddiWord(rd: RegNo, rs: RegNo, imm: int, op: nat): nat
  {
    Or(Or(Or((imm % 0x1000) * 0x10_0000, rs * 0x8000), rd * 0x80), op)
  }

  function SlliWord(rd: RegNo, shift: nat): nat
  {
    Or(Or(Or(Or(shift * 0x10_0000, rd * 0x8000), 0x1000), rd * 0x80), 0x13)
  }

  function LuiWord(rd: RegNo, upper: int): nat
  {
    Or(Or((upper / 0x1000 % 0x10_0000) * 0x1000, rd * 0x80), 0x37)
  }

  /** The fields of an I-format word, read back. */
  lemma Fields(w: nat, imm: nat, rs: nat, f3: nat, rd: nat, op: nat)
    requires imm < 0x1000 && rs < 32 && f3 < 8 && rd < 32 && op < 128
    requires w == imm * 0x10_0000 + rs * 0x8000 + f3 * 0x1000 + rd * 0x80 + op
    ensures w < 0x1_0000_0000
    ensures w % 128 == op && (w / 0x80) % 32 == rd && (w / 0x1000) % 8 == f3
    ensures (w / 0x8000) % 32 == rs && w / 0x10_0000 == imm
  {
    var c := imm * 0x20 + rs;
    var b := c * 8 + f3;
    var a := b * 0x20 + rd;
    DivModUnique(w, 0x80, a, op);
    DivModUnique(a, 0x20, b, rd);
    DivModUnique(w, 0x1000, b, rd * 0x80 + op);
    DivModUnique(b, 8, c, f3);
    DivModUnique(w, 0x8000, c, f3 * 0x1000 + rd * 0x80 + op);
    DivModUnique(c, 0x20, imm, rs);
    DivModUnique(w, 0x10_0000, imm, rs * 0x8000 + f3 * 0x1000 + rd * 0x80 + op);
  }

  lemma AddiSum(i: nat, rd: RegNo, rs: RegNo, op: nat)
    requires i < 0x1000 && op < 0x80
    ensures Or(Or(Or(i * 0x10_0000, rs * 0x8000), rd * 0x80), op) == i * 0x10_0000 + rs * 0x8000 + rd * 0x80 + op
  {
    hide *;
    PowTable();
    OrOnto(i, i * 0x10_0000, rs * 0x8000, 20, 0x10_0000);
    OrOnto(i * 0x100 + rs * 8, i * 0x10_0000 + rs * 0x8000, rd * 0x80, 12, 0x1000);
    OrOnto(i * 0x2000 + rs * 0x100 + rd, i * 0x10_0000 + rs * 0x8000 + rd * 0x80, op, 7, 0x80);
  }

  lemma AddiDecodes(rd: RegNo, rs: RegNo, imm: int, op: nat)
    requires -2048 <= imm < 2048
    requires op == 0x13 || op == 0x1B
    ensures Decode(AddiWord(rd, rs, imm, op)) == if op == 0x13 then Addi(rd, rs, imm) else Addiw(rd, rs, imm)
  {
    hide Or, Pow2;
    AddiSum(imm % 0x1000, rd, rs, op);
    Fields(AddiWord(rd, rs, imm, op), imm % 0x1000, rs, 0, rd, op);
  }

  lemma SlliDecodes(rd: RegNo, shift: nat)
    requires shift < 64
    ensures Decode(SlliWord(rd, shift)) == Slli(rd, rd, shift)
  {
    hide Or, Pow2;
    PowTable();
    OrOnto(shift, shift * 0x10_0000, rd * 0x8000, 20, 0x10_0000);
    OrOnto(shift * 0x20 + rd, shift * 0x10_0000 + rd * 0x8000, 0x1000, 15, 0x8000);
    OrOnto(shift * 0x100 + rd * 8 + 1, shift * 0x10_0000 + rd * 0x8000 + 0x1000, rd * 0x80, 12, 0x1000);
    OrOnto(shift * 0x2000 + rd * 0x100 + 0x20 + rd, shift * 0x10_0000 + rd * 0x8000 + 0x1000 + rd * 0x80, 0x13, 7,
           0x80);
    Fields(SlliWord(rd, shift), shift, rd, 1, rd, 0x13);
  }

  lemma LuiDecodes(rd: RegNo, upper: int)
    ensures Decode(LuiWord(rd, upper)) == Lui(rd, upper / 0x1000 % 0x10_0000)
  {
    hide Or, Pow2;
    var u := upper / 0x1000 % 0x10_0000;
    PowTable();
    OrOnto(u, u * 0x1000, rd * 0x80, 12, 0x1000);
    OrOnto(u * 0x20 + rd, u * 0x1000 + rd * 0x80, 0x37, 7, 0x80);
    var w := LuiWord(rd, upper);
    DivModUnique(w, 0x80, u * 0x20 + rd, 0x37);
    DivModUnique(u * 0x20 + rd, 0x20, u, rd);
    DivModUnique(w, 0x1000, u, rd * 0x80 + 0x37);
  }

  // ----- What each emitted word does to a register that already holds part of the constant -----

  lemma RunOne(w: nat, regs: Regs)
    ensures Run([w], regs) == if Decode(w).Illegal? then Trap else Halted(Step(Decode(w), regs))
  {
  }

  /** `addi rd, rd, imm` adds to the constant loaded so far; on rd = 0 it does nothing. */
  lemma AddiAdds(rd: RegNo, c: int, imm: int, regs: Regs)
    requires -2048 <= imm < 2048
    ensures Run([AddiWord(rd, rd, imm, 0x13)], Write(regs, rd, c)) == Halted(Write(regs, rd, c + imm))
  {
    hide AddiWord;
    AddiDecodes(rd, rd, imm, 0x13);
    RunOne(AddiWord(rd, rd, imm, 0x13), Write(regs, rd, c));
    if rd != 0 {
      AddMod(c, imm, XLEN);
    }
  }

  lemma SlliShifts(rd: RegNo, c: int, shift: nat, regs: Regs)
    requires shift < 64
    ensures Run([SlliWord(rd, shift)], Write(regs, rd, c)) == Halted(Write(regs, rd, c * Pow2(shift)))
  {
    hide SlliWord, Pow2, Decode;
    SlliDecodes(rd, shift);
    RunOne(SlliWord(rd, shift), Write(regs, rd, c));
    if rd != 0 {
      MulMod(c, Pow2(shift), XLEN);
    }
  }

  lemma MulMod(c: int, p: int, m: int)
    requires 0 < m
    ensures (c % m * p) % m == (c * p) % m
  {
    var q, r := c / m, c % m;
    var x := r * p;
    assert c * p == (q * p) * m + x;
    var q', r' := x / m, x % m;
    assert c * p == (q * p + q') * m + r';
    DivModUnique(c * p, m, q * p + q', r');
  }

  function LuiValue(upper: int): int
  {
    Wrap(upper / 0x1000 % 0x10_0000 * 0x1000, 0x8000_0000)
  }

  /** lui wraps at 32 bits, so only the upper part 2**31 is not loaded as itself. */
  lemma LuiLoads(upper: int)
    requires -0x8000_0000 <= upper <= 0x8000_0000 && upper % 0x1000 == 0
    ensures LuiValue(upper) == if upper == 0x8000_0000 then -0x8000_0000 else upper
  {
    var u := upper / 0x1000;
    assert u % 0x10_0000 == if u < 0 then u + 0x10_0000 else u;
  }

  /** addiw, unlike addi, wraps back the sum that lui left off by 2**32. */
  lemma LuiAddiw(v: int, lower: int)
    requires -0x8000_0000 <= v < 0x8000_0000
    requires -2048 <= lower < 2048 && (v - lower) % 0x1000 == 0
    ensures Wrap(LuiValue(v - lower) % XLEN + lower, 0x8000_0000) == v
  {
    hide LuiValue;
    LuiLoads(v - lower);
    var u := LuiValue(v - lower);
    var q := u / XLEN;
    var t := if v - lower == 0x8000_0000 then -1 else 0;
    assert u % XLEN + lower == v + t * 0x1_0000_0000 - q * XLEN;
    DivModUnique(u % XLEN + lower + 0x8000_0000, 0x1_0000_0000, t - q * 0x1_0000_0000, v + 0x8000_0000);
  }

  lemma LuiRuns(rd: RegNo, upper: int, regs: Regs)
    ensures Run([LuiWord(rd, upper)], regs) == Halted(Write(regs, rd, LuiValue(upper)))
  {
    hide LuiWord;
    LuiDecodes(rd, upper);
    RunOne(LuiWord(rd, upper), regs);
  }

  lemma AddiwRuns(rd: RegNo, rs: RegNo, imm: int, regs: Regs)
    requires -2048 <= imm < 2048
    ensures Run([AddiWord(rd, rs, imm, 0x1B)], regs)
         == Halted(Write(regs, rd, Wrap(Read(regs, rs) + imm, 0x8000_0000)))
  {
    hide AddiWord;
    AddiDecodes(rd, rs, imm, 0x1B);
    RunOne(AddiWord(rd, rs, imm, 0x1B), regs);
  }

  // ----- The compiler -----

  predicate FitsInt32(v: int)
  {
    -0x8000_0000 <= v < 0x8000_0000
  }

  /** How many shift steps are still ahead: 0 for a 32 bit constant, then 40, 52 and 64 bits. */
  function Depth(v: int): (d: nat)
    ensures d <= 3
  {
    if FitsInt32(v) then 0
    else if -0x80_0000_0000 <= v <= 0x80_0000_0000 then 1
    else if -0x8_0000_0000_0000 <= v <= 0x8_0000_0000_0000 then 2
    else 3
  }

  ghost predicate Loads(words: seq<nat>, rd: RegNo, v: int)
  {
    forall regs: Regs :: Run(words, regs) == Halted(Write(regs, rd, v))
  }

  lemma LoadsThen(a: seq<nat>, b: seq<nat>, rd: RegNo, u: int, v: int)
    requires Loads(a, rd, u)
    requires forall regs: Regs :: Run(b, Write(regs, rd, u)) == Halted(Write(regs, rd, v))
    ensures Loads(a + b, rd, v)
  {
    forall regs: Regs
      ensures Run(a + b, regs) == Halted(Write(regs, rd, v))
    {
      RunAppend(a, b, regs);
    }
  }

  /** The position of the lowest set bit of `upper`, searched from bit 12 up. */
  method LowestBit(upper: int) returns (shift: nat)
    requires upper != 0 && upper % 0x1000 == 0
    requires -0x8000_0000_0000_0000 <= upper < 0x8000_0000_0000_0000
    ensures 12 <= shift <= 63
    ensures upper == upper / Pow2(shift) * Pow2(shift)
    ensures (upper / Pow2(shift)) % 2 == 1
  {
    shift := 12;
    assert Pow2(12) == 0x1000 by { PowTable(); }
    while (upper / Pow2(shift)) % 2 == 0
      invariant 12 <= shift <= 63
      invariant upper == upper / Pow2(shift) * Pow2(shift)
      decreases 64 - shift
    {
      var q := upper / Pow2(shift);
      assert shift < 63 by {
        if shift == 63 {
          assert Pow2(63) == 0x8000_0000_0000_0000 by { PowTable(); }
        }
      }
      assert Pow2(shift + 1) == 2 * Pow2(shift);
      assert upper == (q / 2) * Pow2(shift + 1) by {
        assert q == 2 * (q / 2);
        assert q * Pow2(shift) == (q / 2) * (2 * Pow2(shift));
      }
      DivModUnique(upper, Pow2(shift + 1), q / 2, 0);
      shift := shift + 1;
    }
  }

  /** Each shift step leaves a shorter constant. */
  lemma ShiftedIsShorter(v: int, upper: int, shift: nat)
    requires -0x8000_0000_0000_0000 <= v < 0x8000_0000_0000_0000 && !FitsInt32(v)
    requires upper == WrappedUpper(v)
    requires 12 <= shift && upper == upper / Pow2(shift) * Pow2(shift)
    ensures -0x8_0000_0000_0000 <= upper / Pow2(shift) < 0x8_0000_0000_0000
    ensures Depth(upper / Pow2(shift)) < Depth(v)
  {
    hide Pow2, Depth, WrappedUpper, FitsInt32;
    var k, p := upper / Pow2(shift), Pow2(shift);
    assert 0x1000 <= p by { PowTable(); PowMonotone(12, shift); }
    assert (k >= 0 ==> k * 0x1000 <= upper) && (k <= 0 ==> k * 0x1000 >= upper) by { MulAtLeast(k, p); }
    DepthShrinks(v, k);
  }

  lemma MulAtLeast(k: int, p: int)
    requires 0x1000 <= p
    ensures k >= 0 ==> k * 0x1000 <= k * p
    ensures k <= 0 ==> k * 0x1000 >= k * p
  {
  }

  function WrappedUpper(v: int): int
  {
    Wrap(v - FlipExtend(v, 0x800), 0x8000_0000_0000_0000)
  }

  lemma DepthShrinks(v: int, k: int)
    requires -0x8000_0000_0000_0000 <= v < 0x8000_0000_0000_0000 && !FitsInt32(v)
    requires k >= 0 ==> k * 0x1000 <= WrappedUpper(v)
    requires k <= 0 ==> k * 0x1000 >= WrappedUpper(v)
    ensures -0x8_0000_0000_0000 <= k < 0x8_0000_0000_0000
    ensures Depth(k) < Depth(v)
  {
  }

  lemma UpperIsWhole(v: int)
    requires -0x8000_0000_0000_0000 <= v < 0x8000_0000_0000_0000 && !FitsInt32(v)
    ensures WrappedUpper(v) != 0 && WrappedUpper(v) % 0x1000 == 0
    ensures (WrappedUpper(v) + FlipExtend(v, 0x800)) % XLEN == v % XLEN
  {
  }

  /** One unwinding step of the recursion: shift the part already loaded, then add the low 12 bits. */
  lemma ShiftStep(head: seq<nat>, rd: RegNo, k: int, shift: nat)
    requires shift < 64 && Loads(head, rd, k)
    ensures Loads(head + [SlliWord(rd, shift)], rd, k * Pow2(shift))
  {
    hide SlliWord;
    forall regs: Regs
      ensures Run([SlliWord(rd, shift)], Write(regs, rd, k)) == Halted(Write(regs, rd, k * Pow2(shift)))
    {
      SlliShifts(rd, k, shift, regs);
    }
    LoadsThen(head, [SlliWord(rd, shift)], rd, k, k * Pow2(shift));
  }

  lemma AddStep(head: seq<nat>, rd: RegNo, u: int, imm: int)
    requires -2048 <= imm < 2048 && Loads(head, rd, u)
    ensures Loads(head + [AddiWord(rd, rd, imm, 0x13)], rd, u + imm)
  {
    hide AddiWord;
    forall regs: Regs
      ensures Run([AddiWord(rd, rd, imm, 0x13)], Write(regs, rd, u)) == Halted(Write(regs, rd, u + imm))
    {
      AddiAdds(rd, u, imm, regs);
    }
    LoadsThen(head, [AddiWord(rd, rd, imm, 0x13)], rd, u, u + imm);
  }

  lemma LoadsCongruent(words: seq<nat>, rd: RegNo, u: int, v: int)
    requires Loads(words, rd, u) && u % XLEN == v % XLEN
    ensures Loads(words, rd, v)
  {
    forall regs: Regs
      ensures Run(words, regs) == Halted(Write(regs, rd, v))
    {
      assert Write(regs, rd, u) == Write(regs, rd, v);
    }
  }

  lemma LuiLoadsAll(rd: RegNo, upper: int)
    requires FitsInt32(upper) && upper % 0x1000 == 0
    ensures Loads([LuiWord(rd, upper)], rd, upper)
  {
    hide LuiWord, Run;
    LuiLoads(upper);
    forall regs: Regs
      ensures Run([LuiWord(rd, upper)], regs) == Halted(Write(regs, rd, upper))
    {
      LuiRuns(rd, upper, regs);
    }
  }

  lemma AddiwLoads(rd: RegNo, v: int)
    requires -2048 <= v < 2048
    ensures Loads([AddiWord(rd, 0, v, 0x1B)], rd, v)
  {
    hide AddiWord, Run;
    forall regs: Regs
      ensures Run([AddiWord(rd, 0, v, 0x1B)], regs) == Halted(Write(regs, rd, v))
    {
      AddiwRuns(rd, 0, v, regs);
    }
  }

  lemma AddiLoads(rd: RegNo, v: int)
    requires -2048 <= v < 2048
    ensures Loads([AddiWord(rd, 0, v, 0x13)], rd, v)
  {
    hide AddiWord, Run;
    forall regs: Regs
      ensures Run([AddiWord(rd, 0, v, 0x13)], regs) == Halted(Write(regs, rd, v))
    {
      AddiDecodes(rd, 0, v, 0x13);
      RunOne(AddiWord(rd, 0, v, 0x13), regs);
    }
  }

  lemma LuiAddiwLoads(rd: RegNo, v: int, lower: int)
    requires FitsInt32(v) && -2048 <= lower < 2048 && (v - lower) % 0x1000 == 0
    ensures Loads([LuiWord(rd, v - lower), AddiWord(rd, rd, lower, 0x1B)], rd, v)
  {
    hide AddiWord, LuiWord, Run, LuiValue, Wrap;
    var lui, addiw := LuiWord(rd, v - lower), AddiWord(rd, rd, lower, 0x1B);
    forall regs: Regs
      ensures Run([lui, addiw], regs) == Halted(Write(regs, rd, v))
    {
      var mid := Write(regs, rd, LuiValue(v - lower));
      LuiRuns(rd, v - lower, regs);
      AddiwRuns(rd, rd, lower, mid);
      LuiAddiw(v, lower);
      RunAppend([lui], [addiw], regs);
      assert [lui] + [addiw] == [lui, addiw];
    }
  }

  lemma UpperIsMultiple(v: int)
    ensures (v - FlipExtend(v, 0x800)) % 0x1000 == 0
    ensures FlipExtend(v, 0x800) == 0 <==> v % 0x1000 == 0
    ensures FlipExtend(v, 0x800) == v <==> -2048 <= v < 2048
  {
  }

  method LoadConst(rd: RegNo, v: int, out: WordList)
    requires -0x8000_0000_0000_0000 <= v < 0x8000_0000_0000_0000
    modifies out
    ensures old(out.words) <= out.words
    ensures Loads(out.words[|old(out.words)|..], rd, v)
    ensures 1 <= |out.words| - |old(out.words)| <= 2 + 2 * Depth(v)
    ensures -0x8000_0000 <= v < 0x8000_0000 ==>
      |out.words| - |old(out.words)| == if -2048 <= v < 2048 || (v % 0x1000 == 0 && rd != 0) then 1 else 2
    decreases Depth(v)
  {
    hide AddiWord, SlliWord, LuiWord, Loads, Wrap, FlipExtend, Depth, Pow2;
    ghost var before := out.words;
    var lower := FlipExtend(v, 0x800);
    var upper := v - lower;
    if !FitsInt32(v) {
      upper := Wrap(upper, 0x8000_0000_0000_0000);
      UpperIsWhole(v);
      var shift := LowestBit(upper);
      ShiftedIsShorter(v, upper, shift);
      LoadConst(rd, upper / Pow2(shift), out);
      ghost var head := out.words[|before|..];
      out.Append(SlliWord(rd, shift));
      ShiftStep(head, rd, upper / Pow2(shift), shift);
      head := head + [SlliWord(rd, shift)];
      if lower != 0 {
        out.Append(AddiWord(rd, rd, lower, 0x13));
        AddStep(head, rd, upper, lower);
        head := head + [AddiWord(rd, rd, lower, 0x13)];
      }
      LoadsCongruent(head, rd, upper + lower, v);
      assert out.words[|before|..] == head;
      return;
    }
    UpperIsMultiple(v);
    var hi := 0;
    if upper != 0 {
      out.Append(LuiWord(rd, upper));
      hi := rd;
    }
    if lower != 0 || hi == 0 {
      out.Append(AddiWord(rd, hi, lower, 0x1B));
    }
    if upper == 0 {
      AddiwLoads(rd, v);
      assert out.words[|before|..] == [AddiWord(rd, 0, v, 0x1B)];
    } else if lower != 0 || rd == 0 {
      LuiAddiwLoads(rd, v, lower);
      assert out.words[|before|..] == [LuiWord(rd, upper), AddiWord(rd, rd, lower, 0x1B)];
    } else {
      LuiLoadsAll(rd, upper);
      assert out.words[|before|..] == [LuiWord(rd, upper)];
    }
  }

  /**
    `li rd, value` for any integer: 1 to 8 words that leave rd equal to the value modulo 2**64 and
    every other register as it was. For rd = 0 they change nothing. A 32 bit constant takes one word if 12 bits
    or its upper bits make it up, else two.
   */
  method LiWords(rd: RegNo, value: int) returns (words: seq<nat>)
    ensures 1 <= |words| <= 8
    ensures var v := Wrap(value, 0x8000_0000_0000_0000);
      -0x8000_0000 <= v < 0x8000_0000 ==>
        |words| == if -2048 <= v < 2048 || (v % 0x1000 == 0 && rd != 0) then 1 else 2
    ensures Loads(words, rd, value)
  {
    hide AddiWord, Depth;
    var v := Wrap(value, 0x8000_0000_0000_0000);
    if -2048 <= v < 2048 {
      words := [AddiWord(rd, 0, v, 0x13)];
      AddiLoads(rd, v);
    } else {
      var out := new WordList();
      LoadConst(rd, v, out);
      words := out.words;
      assert out.words[0..] == words;
    }
    LoadsCongruent(words, rd, v, value);
  }
}
