/**
  The LoongArch64 instructions that `li.w` and `li.d` emit, decoded from their words by the
  formats of the LoongArch Reference Manual, Volume 1. Register 0 reads as zero.
 */
module Loong64Machine {
  import opened Bits

  const GRLEN: int := 0x1_0000_0000_0000_0000

  type Regs = r: seq<int> | |r| == 32 witness seq(32, _ => 0)
  type RegNo = n: nat | n < 32

  function Read(regs: Regs, r: RegNo): nat
  {
    if r == 0 then 0 else regs[r] % GRLEN
  }

  function Write(regs: Regs, rd: RegNo, v: int): Regs
  {
    if rd == 0 then regs else regs[rd := v % GRLEN]
  }

  datatype Instr =
    | Lu12iW(rd: RegNo, si20: nat)
    | Lu32iD(rd: RegNo, si20: nat)
    | Lu52iD(rd: RegNo, rj: RegNo, si12: nat)
    | AddiW(rd: RegNo, rj: RegNo, si12: nat)
    | Ori(rd: RegNo, rj: RegNo, ui12: nat)
    | OrReg(rd: RegNo, rj: RegNo, rk: RegNo)
    | Illegal

  function Decode(w: nat): Instr
  {
    var rd, rj, rk := w % 32, (w / 0x20) % 32, (w / 0x400) % 32;
    var i12, i20 := (w / 0x400) % 0x1000, (w / 0x20) % 0x10_0000;
    if w / 0x200_0000 == 0x0A then Lu12iW(rd, i20)
    else if w / 0x200_0000 == 0x0B then Lu32iD(rd, i20)
    else if w / 0x40_0000 == 0x0A then AddiW(rd, rj, i12)
    else if w / 0x40_0000 == 0x0C then Lu52iD(rd, rj, i12)
    else if w / 0x40_0000 == 0x0E then Ori(rd, rj, i12)
    else if w / 0x8000 == 0x2A then OrReg(rd, rj, rk)
    else Illegal
  }

  /** The value an instruction writes to its rd. */
  function Result(i: Instr, regs: Regs): int
    requires !i.Illegal?
  {
    match i
    case Lu12iW(_, si20) => Wrap(si20 * 0x1000, 0x8000_0000)
    case Lu32iD(rd, si20) => Wrap(si20, 0x8_0000) * 0x1_0000_0000 + Read(regs, rd) % 0x1_0000_0000
    case Lu52iD(_, rj, si12) => si12 * 0x10_0000_0000_0000 + Read(regs, rj) % 0x10_0000_0000_0000
    case AddiW(_, rj, si12) => Wrap(Read(regs, rj) + Wrap(si12, 0x800), 0x8000_0000)
    case Ori(_, rj, ui12) => Or(Read(regs, rj), ui12)
    case OrReg(_, rj, rk) => Or(Read(regs, rj), Read(regs, rk))
  }

  datatype Outcome = Halted(regs: Regs) | Trap

  function Run(words: seq<nat>, regs: Regs): Outcome
  {
    if words == [] then Halted(regs)
    else
      var i := Decode(words[0]);
      if i.Illegal? then Trap else Run(words[1..], Write(regs, i.rd, Result(i, regs)))
  }

  lemma {:induction false} RunAppend(a: seq<nat>, b: seq<nat>, regs: Regs)
    ensures Run(a + b, regs) == match Run(a, regs) case Trap => Trap case Halted(r) => Run(b, r)
  {
    if a == [] {
      assert a + b == b;
    } else {
      assert (a + b)[1..] == a[1..] + b;
      var i := Decode(a[0]);
      if !i.Illegal? {
        RunAppend(a[1..], b, Write(regs, i.rd, Result(i, regs)));
      }
    }
  }
}
