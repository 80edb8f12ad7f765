/**
  The part of the RV64I user-level machine that `li` and the pc-relative pairs use, decoded from
  instruction words by the formats of the RISC-V Unprivileged ISA manual (chapters "RV32I" and
  "RV64I"). Register values are integers modulo 2**64; register 0 reads as zero.
 */
module Riscv64Machine {
  import opened Bits

  const XLEN: int := 0x1_0000_0000_0000_0000

  type Regs = r: seq<int> | |r| == 32 witness seq(32, _ => 0)
  type RegNo = n: nat | n < 32

  function Read(regs: Regs, r: RegNo): int
  {
    if r == 0 then 0 else regs[r]
  }

  function Write(regs: Regs, rd: RegNo, v: int): Regs
  {
    if rd == 0 then regs else regs[rd := v % XLEN]
  }

  datatype Instr =
    | Addi(rd: RegNo, rs1: RegNo, imm: int)
    | Addiw(rd: RegNo, rs1: RegNo, imm: int)
    | Slli(rd: RegNo, rs1: RegNo, shamt: nat)
    | Lui(rd: RegNo, imm20: nat)
    | Illegal

  /** Opcode, rd, funct3, rs1 and the immediate at their places in the I and U formats. */
  function Decode(w: nat): Instr
  {
    var opcode, rd, funct3, rs1 := w % 128, (w / 0x80) % 32, (w / 0x1000) % 8, (w / 0x8000) % 32;
    var imm := Wrap(w / 0x10_0000, 0x800);
    if w >= 0x1_0000_0000 then Illegal
    else if opcode == 0x13 && funct3 == 0 then Addi(rd, rs1, imm)
    else if opcode == 0x13 && funct3 == 1 && w / 0x400_0000 == 0 then Slli(rd, rs1, (w / 0x10_0000) % 64)
    else if opcode == 0x1B && funct3 == 0 then Addiw(rd, rs1, imm)
    else if opcode == 0x37 then Lui(rd, w / 0x1000)
    else Illegal
  }

  function Step(i: Instr, regs: Regs): Regs
    requires !i.Illegal?
  {
    match i
    case Addi(rd, rs1, imm) => Write(regs, rd, Read(regs, rs1) + imm)
    case Addiw(rd, rs1, imm) => Write(regs, rd, Wrap(Read(regs, rs1) + imm, 0x8000_0000))
    case Slli(rd, rs1, shamt) => Write(regs, rd, Read(regs, rs1) * Pow2(shamt))
    case Lui(rd, imm20) => Write(regs, rd, Wrap(imm20 * 0x1000, 0x8000_0000))
  }

  datatype Outcome = Halted(regs: Regs) | Trap

  function Run(words: seq<nat>, regs: Regs): Outcome
  {
    if words == [] then Halted(regs)
    else
      var i := Decode(words[0]);
      if i.Illegal? then Trap else Run(words[1..], Step(i, regs))
  }

  lemma {:induction false} RunAppend(a: seq<nat>, b: seq<nat>, regs: Regs)
    ensures Run(a + b, regs)
         == (match Run(a, regs) case Trap => Trap case Halted(r) => Run(b, r))
  {
    if a == [] {
      assert a + b == b;
    } else {
      assert (a + b)[1..] == a[1..] + b;
      var i := Decode(a[0]);
      if !i.Illegal? {
        RunAppend(a[1..], b, Step(i, regs));
      }
    }
  }
}
