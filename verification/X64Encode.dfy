/**
  Opcode, REX, ModRM, SIB and displacement of one x64 instruction (jita/x64/encoder.py), and the
  decoder that the Intel SDM gives for them (Volume 2A, sections 2.1.5 and 2.2.1).
 */
module X64Encode {
  import opened Bits
  import opened Bytes
  import opened Wrappers
  import opened X64Mem

  // ----- The decoder -----

  datatype Operand =
    | Register(n: nat)
    | Memory(base: Option<nat>, index: Option<nat>, scale: nat, disp: int)
    | RipRelative(disp: int)

  datatype Decoded = Decoded(reg: nat, rm: Operand, length: nat)

  /** A displacement of 0, 1 or 4 bytes at the start of `bytes`. */
  function Displacement(bytes: seq<Byte>, size: nat): (d: Option<int>)
  {
    if |bytes| < size then None
    else if size == 0 then Some(0)
    else if size == 1 then Some(Wrap(bytes[0], 0x80))
    else Some(Wrap(FromLE(bytes[..size]), 0x8000_0000))
  }

  /** The operand at ModRM, given the REX bits that extend its three register fields. */
  function DecodeModRm(r: nat, x: nat, b: nat, bytes: seq<Byte>): Option<Decoded>
  {
    if bytes == [] then None
    else
      var mod, reg, rm := bytes[0] / 64, bytes[0] / 8 % 8, bytes[0] % 8;
      var dispSize := if mod == 1 then 1 else if mod == 2 then 4 else 0;
      if mod == 3 then Some(Decoded(8 * r + reg, Register(8 * b + rm), 1))
      else if rm == 4 then
        if |bytes| < 2 then None
        else
          var scale, index, base := bytes[1] / 64, bytes[1] / 8 % 8, bytes[1] % 8;
          var size := if mod == 0 && base == 5 then 4 else dispSize;
          match Displacement(bytes[2..], size)
          case None => None
          case Some(d) =>
            var i := if 8 * x + index == 4 then None else Some(8 * x + index);
            var n := if mod == 0 && base == 5 then None else Some(8 * b + base);
            Some(Decoded(8 * r + reg, Memory(n, i, if i.None? then 1 else Pow2(scale), d), 2 + size))
      else
        var size := if mod == 0 && rm == 5 then 4 else dispSize;
        match Displacement(bytes[1..], size)
        case None => None
        case Some(d) =>
          Some(Decoded(8 * r + reg,
                       if mod == 0 && rm == 5 then RipRelative(d) else Memory(Some(8 * b + rm), None, 1, d),
                       1 + size))
  }

  datatype Escape = NoEscape | Esc0F | Esc0F38 | Esc0F3A

  datatype Parsed = Parsed(prefixes: seq<Byte>, rex: Option<Byte>, escape: Escape, opcode: Byte, length: nat)

  predicate IsPrefix(b: Byte)
  {
    b == 0x66 || b == 0x67 || b == 0xF2 || b == 0xF3
  }

  /** Legacy prefixes, then a REX prefix directly before the opcode or its escape bytes. */
  function ParseOpcode(bytes: seq<Byte>): Option<Parsed>
  {
    if bytes == [] then None
    else if IsPrefix(bytes[0]) then
      match ParseOpcode(bytes[1..])
      case None => None
      case Some(p) => Some(p.(prefixes := [bytes[0]] + p.prefixes, length := p.length + 1))
    else if 0x40 <= bytes[0] < 0x50 then
      match ParseEscape(bytes[1..])
      case None => None
      case Some(p) => Some(p.(rex := Some(bytes[0]), length := p.length + 1))
    else ParseEscape(bytes)
  }

  function ParseEscape(bytes: seq<Byte>): Option<Parsed>
  {
    if |bytes| >= 1 && bytes[0] != 0x0F then Some(Parsed([], None, NoEscape, bytes[0], 1))
    else if |bytes| >= 2 && bytes[1] != 0x38 && bytes[1] != 0x3A then Some(Parsed([], None, Esc0F, bytes[1], 2))
    else if |bytes| >= 3 then Some(Parsed([], None, if bytes[1] == 0x38 then Esc0F38 else Esc0F3A, bytes[2], 3))
    else None
  }

  // ----- ModRM, SIB and displacement -----

  /** A classified operand: a register, or the parts of a memory operand. */
  datatype Arg =
    | RegArg(code: nat)
    | MemArg(reg: Option<nat>, xreg: Option<nat>, xsc: nat, disp: int, riprel: bool, sym: Option<Sym>)

  /** What the linker fills in: a displacement from rip, the displacement of a branch, or a pointer. */
  datatype Field = RipField | BranchField(size: nat) | PointerField

  function FieldSize(f: Field): nat
  {
    match f case RipField => 4 case BranchField(size) => size case PointerField => 8
  }

  /** A field that the linker fills, `off` bytes into the instruction. */
  datatype Fix = Fix(off: nat, field: Field, sym: Sym, addend: int)

  datatype Emitted = Emitted(bytes: seq<Byte>, fix: Option<Fix>)

  predicate IsArg(t: Arg)
  {
    match t
    case RegArg(code) => code < 16
    case MemArg(reg, xreg, xsc, disp, riprel, sym) =>
      && (reg.Some? ==> reg.value < 16) && (xreg.Some? ==> xreg.value < 16 && xreg.value != 4) && xsc < 4
      && (riprel ==> reg.None? && xreg.None?) && (sym.Some? ==> riprel)
      && (if reg.None? && xreg.None? && !riprel then -0x8000_0000_0000_0000 <= disp < 0x1_0000_0000_0000_0000
          else -0x8000_0000 <= disp < 0x8000_0000)
  }

  function ScaleCode(scale: int): nat
  {
    if scale == 1 then 0 else if scale == 2 then 1 else if scale == 4 then 2 else 3
  }

  function ClassifyMem(m: MemExpr): (t: Arg)
    requires Encodable(m)
  {
    MemArg(if m.base.Some? && m.base.value.Gp? then Some(m.base.value.code) else None,
           if m.index.Some? then Some(m.index.value.code) else None,
           if m.index.Some? then ScaleCode(m.scale) else 0, m.disp, m.base == Some(Rip), m.sym)
  }

  lemma ModRmSum(m: nat, s: nat, rm: nat)
    requires m < 4 && s < 8 && rm < 8
    ensures Or(Or(m * 64, s * 8), rm) == m * 64 + s * 8 + rm
    ensures (m * 64 + s * 8 + rm) / 64 == m && (m * 64 + s * 8 + rm) / 8 % 8 == s && (m * 64 + s * 8 + rm) % 8 == rm
  {
    hide Or, Pow2;
    PowTable();
    OrAligned(m * 64, s * 8, 6, 64);
    OrAligned(m * 64 + s * 8, rm, 3, 8);
  }

  /** mod, reg and rm in their places of a ModRM byte; SIB is laid out alike. */
  function ModRm(m: nat, s: nat, rm: nat): (b: Byte)
    requires m < 4
    ensures b / 64 == m && b / 8 % 8 == s % 8 && b % 8 == rm % 8
  {
    hide Or, Pow2;
    var reg: nat, low: nat := s % 8, rm % 8;
    ModRmSum(m, reg, low);
    Or(Or(m * 64, reg * 8), low)
  }

  /** `putd` */
  function Dword(n: int): (bytes: seq<Byte>)
    ensures |bytes| == 4
  {
    ToLE(n % 0x1_0000_0000, 4)
  }

  /** The mode bits of a base register with a displacement. */
  function Mode(reg: nat, disp: int): (m: nat)
    ensures m < 3
  {
    if disp == 0 && reg % 8 != 5 then 0 else if -128 <= disp <= 127 then 1 else 2
  }

  function Head(reg: nat, xreg: Option<nat>, xsc: nat, s: nat, m: nat): seq<Byte>
    requires m < 3
  {
    if xreg.Some? || reg % 8 == 4 then [ModRm(m, s, 4), ModRm(xsc % 4, if xreg.None? then 4 else xreg.value, reg)]
    else [ModRm(m, s, reg)]
  }

  function BareHead(xreg: Option<nat>, xsc: nat, s: nat): seq<Byte>
  {
    [ModRm(0, s, 4), if xreg.Some? then ModRm(xsc % 4, xreg.value, 5) else ModRm(0, 4, 5)]
  }

  function Tail(m: nat, disp: int): seq<Byte>
  {
    if m == 1 then [disp % 256] else if m == 2 then Dword(disp) else []
  }

  /** What `putmrmsib` appends, or None where it raises EncodeError. */
  function MrmSib(t: Arg, s: nat): Option<Emitted>
  {
    match t
    case RegArg(code) => Some(Emitted([ModRm(3, s, code)], None))
    case MemArg(reg, xreg, xsc, disp, riprel, sym) =>
      if riprel then
        if sym.Some? then Some(Emitted([ModRm(0, s, 5), 0, 0, 0, 0], Some(Fix(1, RipField, sym.value, disp))))
        else Some(Emitted([ModRm(0, s, 5)] + Dword(disp), None))
      else if reg.None? then
        var near := if disp >= 0x8000_0000_0000_0000 then disp - 0x1_0000_0000_0000_0000 else disp;
        if !(-0x8000_0000 <= near < 0x8000_0000) then None
        else Some(Emitted(BareHead(xreg, xsc, s) + Dword(near), None))
      else
        Some(Emitted(Head(reg.value, xreg, xsc, s, Mode(reg.value, disp)) + Tail(Mode(reg.value, disp), disp), None))
  }

  lemma BaseForm(t: Arg, s: nat)
    requires t.MemArg? && !t.riprel && t.reg.Some?
    ensures var m := Mode(t.reg.value, t.disp);
      MrmSib(t, s) == Some(Emitted(Head(t.reg.value, t.xreg, t.xsc, s, m) + Tail(m, t.disp), None))
  {
  }

  lemma NoBaseForm(t: Arg, s: nat)
    requires t.MemArg? && !t.riprel && t.reg.None?
    ensures var near := if t.disp >= 0x8000_0000_0000_0000 then t.disp - 0x1_0000_0000_0000_0000 else t.disp;
      MrmSib(t, s) == if !(-0x8000_0000 <= near < 0x8000_0000) then None
                      else Some(Emitted(BareHead(t.xreg, t.xsc, s) + Dword(near), None))
  {
  }

  /** The operand that the caller asked for, as the processor should see it. */
  function Wanted(t: Arg): Operand
  {
    match t
    case RegArg(code) => Register(code)
    case MemArg(reg, xreg, xsc, disp, riprel, sym) =>
      if riprel then RipRelative(if sym.Some? then 0 else disp)
      else
        Memory(reg, xreg, if xreg.None? then 1 else Pow2(xsc),
               if disp >= 0x8000_0000_0000_0000 then disp - 0x1_0000_0000_0000_0000 else disp)
  }

  lemma DwordDecodes(n: int, rest: seq<Byte>)
    requires -0x8000_0000 <= n < 0x8000_0000
    ensures Displacement(Dword(n) + rest, 4) == Some(n)
  {
    hide ToLE, FromLE;
    PowTable();
    FromToLE(n % 0x1_0000_0000, 4);
    assert (Dword(n) + rest)[..4] == Dword(n);
    assert (n % 0x1_0000_0000 + 0x8000_0000) % 0x1_0000_0000 == n + 0x8000_0000;
  }

  lemma ByteDecodes(n: int, rest: seq<Byte>)
    requires -128 <= n <= 127
    ensures Displacement([n % 256] + rest, 1) == Some(n)
  {
  }

  /** The absolute form is refused exactly if no sign extended 32 bit displacement is the same address. */
  lemma RefusesExactly(t: Arg, s: nat)
    requires IsArg(t)
    ensures MrmSib(t, s).None? <==>
      && t.MemArg? && !t.riprel && t.reg.None? && t.xreg.None?
      && forall d: int | -0x8000_0000 <= d < 0x8000_0000 :: !SameAddress(t.disp, d)
  {
    if t.MemArg? && !t.riprel && t.reg.None? {
      var near := if t.disp >= 0x8000_0000_0000_0000 then t.disp - 0x1_0000_0000_0000_0000 else t.disp;
      if -0x8000_0000 <= near < 0x8000_0000 {
        assert SameAddress(t.disp, near);
      } else {
        forall d: int | -0x8000_0000 <= d < 0x8000_0000
          ensures !SameAddress(t.disp, d)
        {
        }
      }
    }
  }

  // ----- The operand decodes -----

  function Bit3(code: Option<nat>): nat
  {
    if code.Some? then code.value / 8 else 0
  }

  /** REX.B, from the base or register, and REX.X, from the index. */
  function RexB(t: Arg): nat
  {
    if t.RegArg? then t.code / 8 else Bit3(t.reg)
  }

  function RexX(t: Arg): nat
  {
    if t.RegArg? then 0 else Bit3(t.xreg)
  }

  /** rip-relative and absolute operands, and index without base: a 32 bit displacement. */
  lemma NoBaseDecodes(t: Arg, s: nat, rest: seq<Byte>)
    requires IsArg(t) && s < 16 && MrmSib(t, s).Some? && t.MemArg? && t.reg.None?
    ensures DecodeModRm(s / 8, RexX(t), RexB(t), MrmSib(t, s).value.bytes + rest)
         == Some(Decoded(s, Wanted(t), |MrmSib(t, s).value.bytes|))
  {
    hide ModRm, Dword, Displacement, Pow2;
    var bytes := MrmSib(t, s).value.bytes;
    var disp := if t.riprel && t.sym.Some? then 0
                else if t.disp >= 0x8000_0000_0000_0000 then t.disp - 0x1_0000_0000_0000_0000 else t.disp;
    if t.riprel {
      ZeroDword();
      assert (bytes + rest)[1..] == Dword(disp) + rest;
    } else {
      assert (bytes + rest)[2..] == Dword(disp) + rest;
    }
    DwordDecodes(disp, rest);
  }

  lemma ZeroDword()
    ensures Dword(0) == [0, 0, 0, 0]
  {
    assert ToLE(0, 4) == [0] + ToLE(0, 3) && ToLE(0, 3) == [0] + ToLE(0, 2);
    assert ToLE(0, 2) == [0] + ToLE(0, 1) && ToLE(0, 1) == [0];
  }

  /** Displacement bytes after ModRM and SIB, by their mode. */
  lemma TailDecodes(reg: nat, disp: int, rest: seq<Byte>)
    requires -0x8000_0000 <= disp < 0x8000_0000
    ensures var m := Mode(reg, disp);
      Displacement(Tail(m, disp) + rest, if m == 1 then 1 else if m == 2 then 4 else 0) == Some(disp)
      && |Tail(m, disp)| == (if m == 1 then 1 else if m == 2 then 4 else 0)
  {
    hide Dword;
    if disp == 0 && reg % 8 != 5 {
    } else if -128 <= disp <= 127 {
      ByteDecodes(disp, rest);
    } else {
      DwordDecodes(disp, rest);
    }
  }

  /** A base register: the rsp and r12 bases take a SIB byte, the rbp and r13 ones a displacement. */
  lemma BaseDecodes(t: Arg, s: nat, rest: seq<Byte>)
    requires IsArg(t) && s < 16 && MrmSib(t, s).Some? && t.MemArg? && t.reg.Some?
    ensures DecodeModRm(s / 8, RexX(t), RexB(t), MrmSib(t, s).value.bytes + rest)
         == Some(Decoded(s, Wanted(t), |MrmSib(t, s).value.bytes|))
  {
    hide ModRm, Dword, Displacement, Pow2, Tail;
    var bytes := MrmSib(t, s).value.bytes;
    TailDecodes(t.reg.value, t.disp, rest);
    var tail := Tail(Mode(t.reg.value, t.disp), t.disp);
    if t.xreg.Some? || t.reg.value % 8 == 4 {
      assert (bytes + rest)[2..] == tail + rest;
    } else {
      assert (bytes + rest)[1..] == tail + rest;
    }
  }

  /** ModRM, SIB and displacement decode to the operand asked for, and to exactly their own length. */
  lemma OperandDecodes(t: Arg, s: nat, rest: seq<Byte>)
    requires IsArg(t) && s < 16 && MrmSib(t, s).Some?
    ensures DecodeModRm(s / 8, RexX(t), RexB(t), MrmSib(t, s).value.bytes + rest)
         == Some(Decoded(s, Wanted(t), |MrmSib(t, s).value.bytes|))
  {
    hide ModRm, Dword, Displacement;
    if t.RegArg? {
    } else if t.reg.None? {
      NoBaseDecodes(t, s, rest);
    } else {
      BaseDecodes(t, s, rest);
    }
  }

  /**
    An operand takes no more bytes than it needs: SIB only for an index, no base, or rsp and r12 as base,
    and a displacement of one byte if it fits, and none if it is 0, unless rbp or r13 is the base. Without
    an index the scale in SIB is 1.
   */
  lemma OperandSize(t: Arg, s: nat)
    requires IsArg(t) && MrmSib(t, s).Some?
    ensures |MrmSib(t, s).value.bytes| ==
      if t.RegArg? then 1
      else if t.riprel then 5
      else if t.reg.None? then 6
      else 1 + (if t.xreg.Some? || t.reg.value % 8 == 4 then 1 else 0)
           + (if t.disp == 0 && t.reg.value % 8 != 5 then 0 else if -0x80 <= t.disp <= 0x7F then 1 else 4)
    ensures t.MemArg? && t.xreg.None? && t.xsc == 0 && MrmSib(t, s).value.bytes[0] % 8 == 4
            && MrmSib(t, s).value.bytes[0] / 64 != 3
        ==> |MrmSib(t, s).value.bytes| >= 2 && MrmSib(t, s).value.bytes[1] / 8 == 4
  {
    hide ModRm, Dword;
    if t.MemArg? && !t.riprel && t.reg.Some? {
      BaseSize(t, s);
    }
  }

  lemma BaseSize(t: Arg, s: nat)
    requires IsArg(t) && t.MemArg? && !t.riprel && t.reg.Some?
    ensures MrmSib(t, s).Some?
    ensures var bytes, sib := MrmSib(t, s).value.bytes, t.xreg.Some? || t.reg.value % 8 == 4;
      && |bytes| == 1 + (if sib then 1 else 0)
         + (if t.disp == 0 && t.reg.value % 8 != 5 then 0 else if -0x80 <= t.disp <= 0x7F then 1 else 4)
      && (!sib ==> bytes[0] % 8 == t.reg.value % 8)
      && (sib && t.xreg.None? && t.xsc == 0 ==> bytes[1] / 8 == 4)
  {
    hide ModRm, Dword;
  }

  // ----- Opcode and REX -----

  function Rex(rex: nat): Byte
  {
    0x40 + rex % 16
  }

  /** The last opcode byte, with REX before it if it is still to come; byte forms are one below. */
  function LastBytes(sz: Option<char>, op: nat, rex: nat): seq<Byte>
  {
    (if rex != 0 then [Rex(rex)] else []) + [(if sz == Some('b') then op - 1 else op) % 256]
  }

  function LowBytes(sz: Option<char>, op: nat, rex: nat): seq<Byte>
  {
    if op < 0x100 then LastBytes(sz, op, rex)
    else if op / 0x100 == 0x0F && rex != 0 then [Rex(rex), 0x0F] + LastBytes(sz, op % 0x100, 0)
    else [op / 0x100 % 256] + LastBytes(sz, op % 0x100, rex)
  }

  function MidBytes(sz: Option<char>, op: nat, rex: nat): seq<Byte>
  {
    if op < 0x1_0000 then LowBytes(sz, op, rex)
    else
      var opc3 := op / 0x100;
      if rex != 0 && (opc3 == 0x0F3A || opc3 == 0x0F38)
      then [Rex(rex), op / 0x1_0000 % 256] + LowBytes(sz, op % 0x1_0000, 0)
      else [op / 0x1_0000 % 256] + LowBytes(sz, op % 0x1_0000, rex)
  }

  function HighBytes(sz: Option<char>, op: nat, rex: nat): seq<Byte>
  {
    if op < 0x100_0000 then MidBytes(sz, op, rex)
    else [op / 0x100_0000 % 256] + MidBytes(sz, op % 0x100_0000, rex)
  }

  /** What `putop` appends without VEX: prefix bytes from the opcode number first, REX as late as it may come. */
  function OpBytes(sz: Option<char>, op: nat, rex: nat): seq<Byte>
  {
    (if sz == Some('w') then [0x66] else [])
    + if op < 0x1_0000_0000 then HighBytes(sz, op, rex)
      else [op / 0x1_0000_0000 % 256] + HighBytes(sz, op % 0x1_0000_0000, rex)
  }

  /** An opcode as the manuals write it: mandatory prefixes, escape bytes, opcode byte. */
  datatype Opcode = Opcode(prefixes: seq<Byte>, escape: Escape, byte: Byte)

  /** What the hex digits of the table spell: an fwait may come before the instruction. */
  predicate IsCoded(o: Opcode, sz: Option<char>)
  {
    var last := if sz == Some('b') then o.byte - 1 else o.byte;
    && |o.prefixes| <= 2 && (forall p | p in o.prefixes :: Mandatory(p) || p == FWAIT)
    && 0 <= last
    && (o.escape.NoEscape? ==> !IsPrefix(last) && last != 0x0F && !(0x40 <= last < 0x50) && 0 < o.byte)
    && (o.escape.Esc0F? ==> last != 0x38 && last != 0x3A)
  }

  const FWAIT: Byte := 0x9B

  /** One instruction. */
  predicate IsOpcode(o: Opcode, sz: Option<char>)
  {
    IsCoded(o, sz) && forall p | p in o.prefixes :: Mandatory(p)
  }

  /** The number that the table's hex digits spell. */
  function Escaped(o: Opcode): nat
  {
    match o.escape
    case NoEscape => o.byte
    case Esc0F => 0x0F00 + o.byte
    case Esc0F38 => 0x0F_3800 + o.byte
    case Esc0F3A => 0x0F_3A00 + o.byte
  }

  function Width(e: Escape): nat
  {
    match e case NoEscape => 0x100 case Esc0F => 0x1_0000 case _ => 0x100_0000
  }

  function Number(o: Opcode): nat
  {
    if |o.prefixes| == 0 then Escaped(o)
    else if |o.prefixes| == 1 then o.prefixes[0] * Width(o.escape) + Escaped(o)
    else (0x100 * o.prefixes[0] + o.prefixes[1]) * Width(o.escape) + Escaped(o)
  }

  /** The bytes from the escape on. */
  function EscapeBytes(o: Opcode, sz: Option<char>, rex: nat): seq<Byte>
    requires IsCoded(o, sz)
  {
    var last: Byte := if sz == Some('b') then o.byte - 1 else o.byte;
    (if rex != 0 then [Rex(rex)] else [])
    + (match o.escape
       case NoEscape => [] case Esc0F => [0x0F] case Esc0F38 => [0x0F, 0x38] case Esc0F3A => [0x0F, 0x3A])
    + [last]
  }

  lemma LowPeel(sz: Option<char>, p: nat, low: nat, rex: nat)
    requires 0 < p < 0x100 && p != 0x0F && low < 0x100
    ensures LowBytes(sz, p * 0x100 + low, rex) == [p] + LastBytes(sz, low, rex)
  {
    hide LastBytes;
    DivModUnique(p * 0x100 + low, 0x100, p, low);
  }

  lemma MidPeel(sz: Option<char>, p: nat, low: nat, rex: nat)
    requires 0 < p < 0x100 && p != 0x0F && low < 0x1_0000
    ensures MidBytes(sz, p * 0x1_0000 + low, rex) == [p] + LowBytes(sz, low, rex)
  {
    hide LowBytes;
    DivModUnique(p * 0x1_0000 + low, 0x1_0000, p, low);
    DivModUnique(p * 0x1_0000 + low, 0x100, p * 0x100 + low / 0x100, low % 0x100);
  }

  lemma HighPeel(sz: Option<char>, p: nat, low: nat, rex: nat)
    requires 0 < p < 0x100 && p != 0x0F && low < 0x100_0000
    ensures HighBytes(sz, p * 0x100_0000 + low, rex) == [p] + MidBytes(sz, low, rex)
  {
    hide MidBytes;
    DivModUnique(p * 0x100_0000 + low, 0x100_0000, p, low);
  }

  lemma TopPeel(sz: Option<char>, p: nat, low: nat, rex: nat)
    requires 0 < p < 0x100 && p != 0x0F && low < 0x1_0000_0000
    ensures OpBytes(sz, p * 0x1_0000_0000 + low, rex)
         == (if sz == Some('w') then [0x66] else []) + [p] + HighBytes(sz, low, rex)
  {
    hide HighBytes;
    DivModUnique(p * 0x1_0000_0000 + low, 0x1_0000_0000, p, low);
  }

  /** A number too small for a level passes through it. */
  lemma Through(sz: Option<char>, op: nat, rex: nat)
    ensures op < 0x100 ==> LowBytes(sz, op, rex) == LastBytes(sz, op, rex)
    ensures op < 0x1_0000 ==> MidBytes(sz, op, rex) == LowBytes(sz, op, rex)
    ensures op < 0x100_0000 ==> HighBytes(sz, op, rex) == MidBytes(sz, op, rex)
    ensures op < 0x1_0000_0000 ==>
      OpBytes(sz, op, rex) == (if sz == Some('w') then [0x66] else []) + HighBytes(sz, op, rex)
  {
  }

  /** From the escape on: REX in front of the whole escape. */
  lemma EscapeIs(o: Opcode, sz: Option<char>, rex: nat)
    requires IsCoded(o, sz)
    ensures o.escape.NoEscape? ==> LastBytes(sz, o.byte, rex) == EscapeBytes(o, sz, rex)
    ensures o.escape.Esc0F? ==> LowBytes(sz, 0x0F00 + o.byte, rex) == EscapeBytes(o, sz, rex)
    ensures o.escape.Esc0F38? ==> MidBytes(sz, 0x0F_3800 + o.byte, rex) == EscapeBytes(o, sz, rex)
    ensures o.escape.Esc0F3A? ==> MidBytes(sz, 0x0F_3A00 + o.byte, rex) == EscapeBytes(o, sz, rex)
  {
    hide LowBytes, MidBytes;
    match o.escape {
      case NoEscape =>
      case Esc0F => EscapeShort(o, sz, rex);
      case Esc0F38 => EscapeTail(o, sz, rex, 0x38);
      case Esc0F3A => EscapeTail(o, sz, rex, 0x3A);
    }
  }

  lemma EscapeShort(o: Opcode, sz: Option<char>, rex: nat)
    requires IsCoded(o, sz)
    ensures LowBytes(sz, 0x0F00 + o.byte, rex)
         == (if rex != 0 then [Rex(rex)] else []) + [0x0F] + LastBytes(sz, o.byte, 0)
  {
    hide LastBytes;
    DivModUnique(0x0F00 + o.byte, 0x100, 0x0F, o.byte);
  }

  lemma EscapeTail(o: Opcode, sz: Option<char>, rex: nat, e: nat)
    requires IsCoded(o, sz) && (e == 0x38 || e == 0x3A)
    ensures MidBytes(sz, 0x0F_0000 + 0x100 * e + o.byte, rex)
         == (if rex != 0 then [Rex(rex)] else []) + [0x0F, e] + LastBytes(sz, o.byte, 0)
  {
    hide LastBytes, LowBytes;
    LowPeel(sz, e, o.byte, 0);
    LowPeel(sz, e, o.byte, rex);
    var op := 0x0F_0000 + 0x100 * e + o.byte;
    DivModUnique(op, 0x100, 0x0F00 + e, o.byte);
    DivModUnique(op, 0x1_0000, 0x0F, 0x100 * e + o.byte);
  }

  predicate Mandatory(p: nat)
  {
    p == 0x66 || p == 0xF2 || p == 0xF3
  }

  predicate Fronted(p: nat)
  {
    Mandatory(p) || p == FWAIT
  }

  lemma OnePrefix(o: Opcode, sz: Option<char>, rex: nat, p: Byte)
    requires IsCoded(o, sz) && Fronted(p)
    ensures o.escape.NoEscape? ==> LowBytes(sz, p * Width(o.escape) + Escaped(o), rex) == [p] + EscapeBytes(o, sz, rex)
    ensures o.escape.Esc0F? ==> MidBytes(sz, p * Width(o.escape) + Escaped(o), rex) == [p] + EscapeBytes(o, sz, rex)
    ensures p * Width(o.escape) + Escaped(o) < 0x100 * Width(o.escape)
    ensures HighBytes(sz, p * Width(o.escape) + Escaped(o), rex) == [p] + EscapeBytes(o, sz, rex)
  {
    hide LastBytes, LowBytes, MidBytes, HighBytes, EscapeBytes, IsCoded;
    EscapeIs(o, sz, rex);
    Through(sz, p * Width(o.escape) + Escaped(o), rex);
    match o.escape {
      case NoEscape => LowPeel(sz, p, o.byte, rex);
      case Esc0F => MidPeel(sz, p, 0x0F00 + o.byte, rex);
      case Esc0F38 => HighPeel(sz, p, 0x0F_3800 + o.byte, rex);
      case Esc0F3A => HighPeel(sz, p, 0x0F_3A00 + o.byte, rex);
    }
  }

  lemma TwoPrefixes(o: Opcode, sz: Option<char>, rex: nat, p: Byte, q: Byte)
    requires IsCoded(o, sz) && Fronted(p) && Fronted(q)
    ensures OpBytes(sz, (0x100 * p + q) * Width(o.escape) + Escaped(o), rex)
         == (if sz == Some('w') then [0x66] else []) + [p, q] + EscapeBytes(o, sz, rex)
  {
    hide LastBytes, LowBytes, MidBytes, HighBytes, OpBytes, EscapeBytes, IsCoded;
    OnePrefix(o, sz, rex, q);
    var low := q * Width(o.escape) + Escaped(o);
    Through(sz, p * (0x100 * Width(o.escape)) + low, rex);
    match o.escape {
      case NoEscape => MidPeel(sz, p, low, rex);
      case Esc0F => HighPeel(sz, p, low, rex);
      case Esc0F38 => TopPeel(sz, p, low, rex);
      case Esc0F3A => TopPeel(sz, p, low, rex);
    }
  }

  /** Prefix bytes in the opcode number come out in front, whatever the escape. */
  lemma PrefixBytes(o: Opcode, sz: Option<char>, rex: nat)
    requires IsCoded(o, sz)
    ensures OpBytes(sz, Number(o), rex)
         == (if sz == Some('w') then [0x66] else []) + o.prefixes + EscapeBytes(o, sz, rex)
  {
    hide LastBytes, LowBytes, MidBytes, HighBytes, OpBytes, EscapeBytes;
    EscapeIs(o, sz, rex);
    Through(sz, Number(o), rex);
    if |o.prefixes| == 1 {
      OnePrefix(o, sz, rex, o.prefixes[0]);
      assert o.prefixes == [o.prefixes[0]];
    } else if |o.prefixes| == 2 {
      TwoPrefixes(o, sz, rex, o.prefixes[0], o.prefixes[1]);
      assert o.prefixes == [o.prefixes[0], o.prefixes[1]];
    }
  }

  lemma EscapeParses(o: Opcode, sz: Option<char>, rex: nat, rest: seq<Byte>)
    requires IsCoded(o, sz)
    ensures ParseOpcode(EscapeBytes(o, sz, rex) + rest)
         == Some(Parsed([], if rex != 0 then Some(Rex(rex)) else None, o.escape,
                        if sz == Some('b') then o.byte - 1 else o.byte, |EscapeBytes(o, sz, rex)|))
  {
    var bytes := EscapeBytes(o, sz, rex) + rest;
    if rex != 0 {
      assert bytes[1..] == EscapeBytes(o, sz, 0) + rest;
    }
  }

  lemma {:induction false} PrefixesParse(prefixes: seq<Byte>, bytes: seq<Byte>)
    requires forall p | p in prefixes :: IsPrefix(p)
    requires ParseOpcode(bytes).Some?
    ensures ParseOpcode(prefixes + bytes)
         == Some(ParseOpcode(bytes).value.(prefixes := prefixes + ParseOpcode(bytes).value.prefixes,
                                           length := |prefixes| + ParseOpcode(bytes).value.length))
  {
    if prefixes == [] {
      assert prefixes + bytes == bytes;
      assert prefixes + ParseOpcode(bytes).value.prefixes == ParseOpcode(bytes).value.prefixes;
    } else {
      assert (prefixes + bytes)[1..] == prefixes[1..] + bytes;
      PrefixesParse(prefixes[1..], bytes);
      var parsed := ParseOpcode(bytes).value.prefixes;
      assert [prefixes[0]] + (prefixes[1..] + parsed) == prefixes + parsed;
    }
  }

  /** The emitted opcode parses back: mandatory prefixes, REX in the only place it counts, escape, byte. */
  lemma OpcodeParses(front: seq<Byte>, o: Opcode, sz: Option<char>, rex: nat, rest: seq<Byte>)
    requires IsOpcode(o, sz) && forall p | p in front :: IsPrefix(p)
    ensures var sized := front + (if sz == Some('w') then [0x66] else []) + o.prefixes;
      ParseOpcode(front + OpBytes(sz, Number(o), rex) + rest)
      == Some(Parsed(sized, if rex != 0 then Some(Rex(rex)) else None, o.escape,
                     if sz == Some('b') then o.byte - 1 else o.byte, |front| + |OpBytes(sz, Number(o), rex)|))
  {
    hide OpBytes, EscapeBytes, Number, ParseOpcode, Rex;
    var sized := front + (if sz == Some('w') then [0x66] else []) + o.prefixes;
    PrefixBytes(o, sz, rex);
    EscapeParses(o, sz, rex, rest);
    assert forall p | p in sized :: IsPrefix(p);
    PrefixesParse(sized, EscapeBytes(o, sz, rex) + rest);
    assert front + OpBytes(sz, Number(o), rex) + rest == sized + (EscapeBytes(o, sz, rex) + rest);
    assert sized + [] == sized;
  }

  // ----- VEX -----

  /** `_Vex`: opcode map, implied prefix, the operand in vvvv if there is one, and the length bit. */
  datatype Vex = Vex(m: nat, p: nat, v: Option<Arg>, l: bool)

  predicate IsVex(vex: Vex)
  {
    vex.m < 32 && vex.p < 4 && (vex.v.Some? ==> IsArg(vex.v.value))
  }

  /** The register in vvvv; a memory operand there is the EncodeError. */
  function VexReg(vex: Vex): nat
  {
    if vex.v.Some? && vex.v.value.RegArg? then vex.v.value.code else 0
  }

  lemma VexRegIs(vex: Vex)
    ensures VexReg(vex) == if vex.v.Some? && vex.v.value.RegArg? then vex.v.value.code else 0
  {
  }

  predicate VexAccepts(vex: Vex)
  {
    vex.v.Some? ==> vex.v.value.RegArg?
  }

  /** The last byte: vvvv inverted, L and pp, below the `top` bit. */
  function VexLast(vex: Vex, sz: Option<char>, top: nat): int
  {
    top * 0x80 + (15 - VexReg(vex)) * 8 + (if sz == Some('y') || vex.l then 4 else 0) + vex.p
  }

  /** What `putop` puts for VEX: two bytes if the first map is enough and W, X and B are clear, else three. */
  function VexBytes(vex: Vex, sz: Option<char>, rex: nat): seq<Byte>
  {
    if vex.m == 1 && rex % 4 == 0 && rex / 8 % 2 == 0 then [0xC5, VexLast(vex, sz, 1 - rex / 4 % 2) % 256]
    else [0xC4, ((7 - rex % 8) * 32 + vex.m) % 256, VexLast(vex, sz, rex / 8 % 2) % 256]
  }

  /** What `putop` puts. */
  function FullOp(sz: Option<char>, op: nat, rex: nat, vex: Option<Vex>): seq<Byte>
  {
    if vex.None? then OpBytes(sz, op, rex) else VexBytes(vex.value, sz, rex) + OpBytes(sz, op, 0)
  }

  predicate OpAccepts(op: nat, rex: nat, vex: Option<Vex>, hasHigh: bool)
  {
    if vex.None? then rex == 0 || !hasHigh else VexAccepts(vex.value) && op < 0x100
  }

  /** The fields of a VEX prefix as the processor reads them (section 2.3.5): R, X, B and vvvv are inverted. */
  datatype VexFields = VexFields(
    w: nat, r: nat, x: nat, b: nat, opcodeMap: nat, vvvv: nat, long: bool, pp: nat, length: nat)

  function ParseVex(bytes: seq<Byte>): Option<VexFields>
  {
    if |bytes| >= 2 && bytes[0] == 0xC5 then
      var last := bytes[1];
      Some(VexFields(0, 1 - last / 128, 0, 0, 1, 15 - last / 8 % 16, last / 4 % 2 == 1, last % 4, 2))
    else if |bytes| >= 3 && bytes[0] == 0xC4 then
      var first, last := bytes[1], bytes[2];
      Some(VexFields(last / 128, 1 - first / 128, 1 - first / 64 % 2, 1 - first / 32 % 2, first % 32,
                     15 - last / 8 % 16, last / 4 % 2 == 1, last % 4, 3))
    else None
  }

  lemma VexLastParts(top: nat, reg: nat, long: bool, p: nat)
    requires top < 2 && reg < 16 && p < 4
    ensures var last := top * 0x80 + (15 - reg) * 8 + (if long then 4 else 0) + p;
      && 0 <= last < 256 && last / 128 == top && last / 8 % 16 == 15 - reg
      && (last / 4 % 2 == 1 <==> long) && last % 4 == p
  {
  }

  /** The bits W, R, X and B of a REX number. */
  lemma RexBits(n: nat) returns (w: nat, r: nat, x: nat, b: nat)
    ensures w < 2 && r < 2 && x < 2 && b < 2
    ensures n / 8 % 2 == w && n / 4 % 2 == r && n / 2 % 2 == x && n % 2 == b
    ensures n % 4 == 2 * x + b && n % 8 == 4 * r + 2 * x + b && n % 16 == 8 * w + 4 * r + 2 * x + b
  {
    var n1 := n / 2;
    var n2 := n1 / 2;
    var n3 := n2 / 2;
    b, x, r, w := n % 2, n1 % 2, n2 % 2, n3 % 2;
    assert n == 2 * n1 + b && n1 == 2 * n2 + x && n2 == 2 * n3 + r && n3 == 2 * (n3 / 2) + w;
    DivModUnique(n, 4, n2, 2 * x + b);
    DivModUnique(n, 8, n3, 4 * r + 2 * x + b);
    DivModUnique(n, 16, n3 / 2, 8 * w + 4 * r + 2 * x + b);
  }

  lemma VexFirstParts(r: nat, x: nat, b: nat, m: nat)
    requires r < 2 && x < 2 && b < 2 && m < 32
    ensures var first := (7 - (4 * r + 2 * x + b)) * 32 + m;
      && 0 <= first < 256 && first % 32 == m
      && first / 128 == 1 - r && first / 64 % 2 == 1 - x && first / 32 % 2 == 1 - b
  {
    var first := (1 - r) * 128 + (1 - x) * 64 + (1 - b) * 32 + m;
    DivModUnique(first, 128, 1 - r, (1 - x) * 64 + (1 - b) * 32 + m);
    DivModUnique(first, 64, 2 * (1 - r) + (1 - x), (1 - b) * 32 + m);
    DivModUnique(first, 32, 4 * (1 - r) + 2 * (1 - x) + (1 - b), m);
  }

  /** A VEX prefix carries W, R, X and B of the REX number it replaces, the map, pp, L and vvvv. */
  lemma VexParses(vex: Vex, sz: Option<char>, rex: nat, rest: seq<Byte>)
    requires IsVex(vex)
    ensures ParseVex(VexBytes(vex, sz, rex) + rest)
         == Some(VexFields(rex / 8 % 2, rex / 4 % 2, rex / 2 % 2, rex % 2, vex.m, VexReg(vex),
                           sz == Some('y') || vex.l, vex.p, |VexBytes(vex, sz, rex)|))
  {
    var w, r, x, b := RexBits(rex);
    if vex.m == 1 && x == 0 && b == 0 && w == 0 {
      VexShort(vex, sz, rex, r, rest);
    } else {
      VexLong(vex, sz, rex, w, r, x, b, rest);
    }
  }

  /** The short form is taken exactly if it can say everything: the first map, and W, X and B clear. */
  lemma VexSize(vex: Vex, sz: Option<char>, rex: nat)
    ensures |VexBytes(vex, sz, rex)|
         == if vex.m == 1 && rex / 8 % 2 == 0 && rex / 2 % 2 == 0 && rex % 2 == 0 then 2 else 3
  {
    var w, r, x, b := RexBits(rex);
    hide VexLast;
  }

  lemma VexShort(vex: Vex, sz: Option<char>, rex: nat, r: nat, rest: seq<Byte>)
    requires IsVex(vex) && vex.m == 1 && rex % 4 == 0 && rex / 8 % 2 == 0 && rex / 4 % 2 == r
    ensures ParseVex(VexBytes(vex, sz, rex) + rest)
         == Some(VexFields(0, r, 0, 0, 1, VexReg(vex), sz == Some('y') || vex.l, vex.p, 2))
    ensures |VexBytes(vex, sz, rex)| == 2
  {
    assert VexReg(vex) < 16;
    hide VexReg;
    var last := VexLast(vex, sz, 1 - r);
    VexLastParts(1 - r, VexReg(vex), sz == Some('y') || vex.l, vex.p);
    assert last % 256 == last;
    hide VexLast;
    assert VexBytes(vex, sz, rex) == [0xC5, last];
    hide VexBytes;
    assert ([0xC5, last] + rest)[0] == 0xC5 && ([0xC5, last] + rest)[1] == last;
  }

  lemma VexLong(vex: Vex, sz: Option<char>, rex: nat, w: nat, r: nat, x: nat, b: nat, rest: seq<Byte>)
    requires IsVex(vex) && !(vex.m == 1 && rex % 4 == 0 && rex / 8 % 2 == 0)
    requires w < 2 && r < 2 && x < 2 && b < 2 && rex / 8 % 2 == w && rex % 8 == 4 * r + 2 * x + b
    ensures ParseVex(VexBytes(vex, sz, rex) + rest)
         == Some(VexFields(w, r, x, b, vex.m, VexReg(vex), sz == Some('y') || vex.l, vex.p, 3))
    ensures |VexBytes(vex, sz, rex)| == 3
  {
    VexLastParts(w, VexReg(vex), sz == Some('y') || vex.l, vex.p);
    VexFirstParts(r, x, b, vex.m);
    var first, last := (7 - (4 * r + 2 * x + b)) * 32 + vex.m, VexLast(vex, sz, w);
    var bytes := VexBytes(vex, sz, rex) + rest;
    assert bytes[0] == 0xC4 && bytes[1] == first && bytes[2] == last;
    hide VexBytes, VexLast, VexReg;
  }

  /** The map and the implied prefix that the hex digits before a VEX letter spell, and what is left of them. */
  function VexSplit(opcode: nat): Option<(nat, nat, nat)>
  {
    var b := opcode % 0x100;
    var m := if b == 0x38 then 2 else if b == 0x3A then 3 else 1;
    var escape := if m == 1 then opcode else opcode / 0x100;
    if escape % 0x100 != 0x0F then None
    else
      var front := escape / 0x100;
      var p := ImpliedOf(front % 0x100);
      Some((m, p, if p == 0 then front else front / 0x100))
  }

  /** The opcode map and the implied prefix that the SDM gives for an escape and a mandatory prefix. */
  function MapOf(e: Escape): nat
  {
    match e case Esc0F38 => 2 case Esc0F3A => 3 case _ => 1
  }

  function ImpliedOf(prefix: nat): nat
  {
    if prefix == 0x66 then 1 else if prefix == 0xF3 then 2 else if prefix == 0xF2 then 3 else 0
  }

  /** The digits of a prefix and an escape spell that map and prefix, and nothing is left of them. */
  lemma VexSpells(e: Escape, prefix: nat)
    requires !e.NoEscape? && (prefix == 0 || Mandatory(prefix))
    ensures e.Esc0F? ==> VexSplit(prefix * 0x100 + 0x0F) == Some((MapOf(e), ImpliedOf(prefix), 0))
    ensures e.Esc0F38? ==> VexSplit(prefix * 0x1_0000 + 0x0F38) == Some((MapOf(e), ImpliedOf(prefix), 0))
    ensures e.Esc0F3A? ==> VexSplit(prefix * 0x1_0000 + 0x0F3A) == Some((MapOf(e), ImpliedOf(prefix), 0))
  {
    DivModUnique(prefix * 0x100 + 0x0F, 0x100, prefix, 0x0F);
    DivModUnique(prefix * 0x1_0000 + 0x0F38, 0x100, prefix * 0x100 + 0x0F, 0x38);
    DivModUnique(prefix * 0x1_0000 + 0x0F3A, 0x100, prefix * 0x100 + 0x0F, 0x3A);
  }

  // ----- One instruction with a ModRM operand -----

  /** Where the reg field comes from: a register operand, or a digit of the opcode. */
  datatype Spare = Code(code: nat) | Digit(digit: nat)

  function Spared(spare: Spare): nat
  {
    match spare case Code(c) => c case Digit(d) => d
  }

  predicate IsSpare(spare: Spare)
  {
    Spared(spare) < 16
  }

  /** The REX number of `dopattern`; 16 is not a bit of REX, it only forces the prefix. */
  function RexOf(szov: Option<char>, forced: bool, needrex: bool, t: Arg, s: nat): nat
  {
    (if forced || szov == Some('q') then 8 else 0) + (if RexB(t) != 0 then 1 else 0) + (if RexX(t) != 0 then 2 else 0)
    + (if s > 7 then 4 else 0) + (if needrex then 16 else 0)
  }

  /** REX is there for a 64 bit operand, for a register of 8 or more, or because a byte register asks for it. */
  predicate NeedsRex(szov: Option<char>, forced: bool, needrex: bool, t: Arg, s: nat)
  {
    forced || szov == Some('q') || needrex || s > 7 || RexB(t) != 0 || RexX(t) != 0
  }

  lemma RexedIs(szov: Option<char>, forced: bool, needrex: bool, t: Arg, s: nat)
    ensures RexOf(szov, forced, needrex, t, s) != 0 <==> NeedsRex(szov, forced, needrex, t, s)
  {
    hide RexB, RexX;
  }

  // ----- Byte registers -----

  /** al to r15b by number, or ah, ch, dh and bh, whose numbers are 4 to 7. */
  datatype ByteReg = ByteReg(code: nat, high: bool)

  predicate IsByteReg(r: ByteReg)
  {
    r.code < 16 && (r.high ==> 4 <= r.code < 8)
  }

  /** The byte register that a number names: with REX spl, bpl, sil and dil take the place of the high ones. */
  function NamedByte(n: nat, rexed: bool): ByteReg
  {
    ByteReg(n, !rexed && 4 <= n < 8)
  }

  /** The `needrex` of a classified register. */
  function RexWish(r: ByteReg): Option<bool>
  {
    if r.high then Some(false) else if r.code >= 4 then Some(true) else None
  }

  /** The `needrex` of all operands; None is the EncodeError of a bad mix. */
  function RexWishes(regs: seq<ByteReg>): Option<Option<bool>>
  {
    if regs == [] then Some(None)
    else
      match RexWishes(regs[..|regs| - 1])
      case None => None
      case Some(wish) =>
        var last := RexWish(regs[|regs| - 1]);
        if last.None? then Some(wish) else if wish.None? || wish == last then Some(last) else None
  }

  predicate AnyHigh(regs: seq<ByteReg>)
  {
    exists r :: r in regs && r.high
  }

  /** A byte register that only REX gives. */
  predicate AnyRexed(regs: seq<ByteReg>)
  {
    exists r :: r in regs && !r.high && r.code >= 4
  }

  lemma {:induction false} WishesMean(regs: seq<ByteReg>)
    ensures RexWishes(regs) == if AnyHigh(regs) && AnyRexed(regs) then None
                               else if AnyHigh(regs) then Some(Some(false))
                               else if AnyRexed(regs) then Some(Some(true)) else Some(None)
  {
    if regs != [] {
      var front, last := regs[..|regs| - 1], regs[|regs| - 1];
      WishesMean(front);
      assert forall r :: r in regs <==> r in front || r == last;
      assert AnyHigh(regs) <==> AnyHigh(front) || last.high;
      assert AnyRexed(regs) <==> AnyRexed(front) || (!last.high && last.code >= 4);
      hide AnyHigh, AnyRexed;
    }
  }

  /** The numbers name the registers; those from 8 on take a bit of REX. */
  predicate NamesAll(regs: seq<ByteReg>, rexed: bool)
  {
    forall r | r in regs :: NamedByte(r.code, rexed) == r && (r.code >= 8 ==> rexed)
  }

  /** An instruction with these byte registers is accepted, if `other` says whether its other parts need REX. */
  predicate AcceptsBytes(regs: seq<ByteReg>, other: bool)
  {
    RexWishes(regs).Some? && !(AnyHigh(regs) && (other || RexWishes(regs).value == Some(true)))
  }

  /**
    Byte registers are refused exactly if they cannot be named together, with REX or without; and what
    is accepted names each of them.
   */
  lemma BytesExactly(regs: seq<ByteReg>, other: bool)
    requires forall r | r in regs :: IsByteReg(r)
    ensures AcceptsBytes(regs, other) <==> exists rexed: bool :: NamesAll(regs, rexed) && (other ==> rexed)
    ensures AcceptsBytes(regs, other) ==> NamesAll(regs, other || RexWishes(regs).value == Some(true))
  {
    hide RexWishes;
    WishesMean(regs);
    if AcceptsBytes(regs, other) {
      assert NamesAll(regs, other || RexWishes(regs).value == Some(true));
    }
    forall rexed: bool | NamesAll(regs, rexed) && (other ==> rexed)
      ensures AcceptsBytes(regs, other)
    {
      assert AnyHigh(regs) ==> !rexed;
      assert AnyRexed(regs) ==> rexed;
    }
  }

  /** A field of at least one byte, over zeros. */
  predicate FixOk(out: seq<Byte>, f: Fix)
  {
    && 0 < FieldSize(f.field) && f.off + FieldSize(f.field) <= |out|
    && out[f.off..f.off + FieldSize(f.field)] == Zeros(FieldSize(f.field))
  }

  /** Fixups in order, each over zero bytes of the instruction. */
  predicate FixesOk(out: seq<Byte>, fixups: seq<Fix>)
  {
    && (forall k | 0 <= k < |fixups| :: FixOk(out, fixups[k]))
    && (forall j, k | 0 <= j < k < |fixups| :: fixups[j].off + FieldSize(fixups[j].field) <= fixups[k].off)
  }

  lemma FixesGrow(out: seq<Byte>, fixups: seq<Fix>, more: seq<Byte>)
    requires FixesOk(out, fixups)
    ensures FixesOk(out + more, fixups)
  {
    forall k | 0 <= k < |fixups|
      ensures FixOk(out + more, fixups[k])
    {
      var f := fixups[k];
      assert FixOk(out, f);
      assert (out + more)[f.off..f.off + FieldSize(f.field)] == out[f.off..f.off + FieldSize(f.field)];
    }
  }

  lemma FixesNext(out: seq<Byte>, fixups: seq<Fix>, field: Field, sym: Sym, addend: int)
    requires FixesOk(out, fixups) && 0 < FieldSize(field)
    ensures FixesOk(out + Zeros(FieldSize(field)), fixups + [Fix(|out|, field, sym, addend)])
  {
    var zeros := Zeros(FieldSize(field));
    FixesGrow(out, fixups, zeros);
    assert (out + zeros)[|out|..|out| + FieldSize(field)] == zeros;
    assert FixOk(out + zeros, Fix(|out|, field, sym, addend));
    hide FixOk;
    assert forall k | 0 <= k < |fixups| :: FixOk(out, fixups[k]);
    FixesInside(out, fixups);
  }

  lemma FixesInside(out: seq<Byte>, fixups: seq<Fix>)
    requires FixesOk(out, fixups)
    ensures forall k | 0 <= k < |fixups| :: fixups[k].off + FieldSize(fixups[k].field) <= |out|
  {
    forall k | 0 <= k < |fixups|
      ensures fixups[k].off + FieldSize(fixups[k].field) <= |out|
    {
      assert FixOk(out, fixups[k]);
    }
  }

  lemma NoFixes(out: seq<Byte>)
    ensures FixesOk(out, [])
  {
  }

  // ----- Immediates -----

  /** The letters S, U, W and i of a pattern. */
  datatype Letter = SByte | UByte | UWord | Sized

  /** A number operand, and the letter that puts it. */
  datatype Imm = Imm(letter: Letter, raw: int)

  /** Numbers that are a small negative one as 32 bits are taken for that. */
  function Normalized(raw: int): int
  {
    if 0xFFFF_FF80 <= raw <= 0xFFFF_FFFF then raw - 0x1_0000_0000 else raw
  }

  /** The numbers that an operand size admits; the sizes of vectors and of the x87 admit all. */
  function SizeRange(sz: Option<char>): Option<(int, int)>
  {
    if sz == Some('b') then Some((-0x80, 0xFF))
    else if sz == Some('w') then Some((-0x8000, 0xFFFF))
    else if sz == Some('d') then Some((-0x8000_0000, 0xFFFF_FFFF))
    else if sz == Some('q') || sz.None? then Some((-0x8000_0000, 0x7FFF_FFFF))
    else None
  }

  /** What `immediate` puts for a number, or None where it raises EncodeError. */
  function ImmBytes(sz: Option<char>, i: Imm): (r: Option<seq<Byte>>)
  {
    var n := Normalized(i.raw);
    if SizeRange(sz).Some? && !(SizeRange(sz).value.0 <= i.raw <= SizeRange(sz).value.1) then None
    else
      match i.letter
      case SByte => if -128 <= n <= 127 then Some([n % 256]) else None
      case UByte => if 0 <= n <= 255 then Some([n % 256]) else None
      case UWord => if 0 <= n <= 0xFFFF then Some(ToLE(n % 0x1_0000, 2)) else None
      case Sized =>
        if sz.None? || sz == Some('d') || sz == Some('q') then Some(Dword(n))
        else if sz == Some('w') then if -0x8000 <= n < 0x1_0000 then Some(ToLE(n % 0x1_0000, 2)) else None
        else if sz == Some('b') then if -128 <= n <= 255 then Some([n % 256]) else None
        else None
  }

  function ImmsBytes(sz: Option<char>, imms: seq<Imm>): Option<seq<Byte>>
  {
    if imms == [] then Some([])
    else
      var front, last := ImmsBytes(sz, imms[..|imms| - 1]), ImmBytes(sz, imms[|imms| - 1]);
      if front.None? || last.None? then None else Some(front.value + last.value)
  }

  lemma ImmsNext(sz: Option<char>, imms: seq<Imm>, k: nat)
    requires k < |imms| && ImmsBytes(sz, imms[..k]).Some?
    ensures ImmsBytes(sz, imms[..k + 1])
         == if ImmBytes(sz, imms[k]).None? then None
            else Some(ImmsBytes(sz, imms[..k]).value + ImmBytes(sz, imms[k]).value)
    ensures ImmBytes(sz, imms[k]).None? ==> ImmsBytes(sz, imms).None?
    decreases |imms| - k
  {
    hide ImmBytes;
    assert imms[..k + 1][..k] == imms[..k];
    if ImmBytes(sz, imms[k]).None? {
      ImmsRefused(sz, imms, k + 1);
    }
  }

  lemma {:induction false} ImmsRefused(sz: Option<char>, imms: seq<Imm>, k: nat)
    requires k <= |imms| && ImmsBytes(sz, imms[..k]).None?
    ensures ImmsBytes(sz, imms).None?
  {
    hide ImmBytes;
    if k == |imms| {
      assert imms[..k] == imms;
    } else {
      assert imms[..|imms| - 1][..k] == imms[..k];
      ImmsRefused(sz, imms[..|imms| - 1], k);
    }
  }

  lemma {:induction false} ImmsExactly(sz: Option<char>, imms: seq<Imm>)
    ensures ImmsBytes(sz, imms).Some? <==> forall i | i in imms :: ImmBytes(sz, i).Some?
  {
    hide ImmBytes;
    if imms != [] {
      var n := |imms| - 1;
      ImmsExactly(sz, imms[..n]);
      assert forall i :: i in imms <==> i in imms[..n] || i == imms[n];
    }
  }

  /** The number of values of an operand size. */
  function Values(sz: Option<char>): int
  {
    if sz == Some('b') then 0x100
    else if sz == Some('w') then 0x1_0000
    else if sz == Some('q') || sz.None? then 0x1_0000_0000_0000_0000
    else 0x1_0000_0000
  }

  /** What the processor takes the bytes for: a signed byte, an unsigned number, or one of the operand size. */
  function ImmRead(sz: Option<char>, letter: Letter, bytes: seq<Byte>): int
  {
    if letter == SByte then Wrap(FromLE(bytes), 0x80)
    else if letter == Sized && (sz == Some('q') || sz.None?) then Wrap(FromLE(bytes), 0x8000_0000)
    else FromLE(bytes)
  }

  /** An immediate that is put is the number asked for, modulo the operand size; an unsigned one is that number. */
  lemma ImmediateMeans(sz: Option<char>, i: Imm)
    requires ImmBytes(sz, i).Some?
    ensures |ImmBytes(sz, i).value|
         == match i.letter
            case UWord => 2
            case Sized => if sz == Some('b') then 1 else if sz == Some('w') then 2 else 4
            case _ => 1
    ensures var read := ImmRead(sz, i.letter, ImmBytes(sz, i).value);
      && (read - i.raw) % Values(sz) == 0
      && (i.letter == UByte || i.letter == UWord ==> read == i.raw)
      && (i.letter == Sized && (sz.None? || sz == Some('q')) ==> read == i.raw)
  {
    ImmediateSize(sz, i);
    hide ImmBytes, ImmRead, Values;
    match i.letter
    case SByte => SignedByte(sz, i.raw);
    case Sized => SizedNumber(sz, i.raw);
    case _ => UnsignedNumber(sz, i);
  }

  lemma ImmediateSize(sz: Option<char>, i: Imm)
    requires ImmBytes(sz, i).Some?
    ensures |ImmBytes(sz, i).value|
         == match i.letter
            case UWord => 2
            case Sized => if sz == Some('b') then 1 else if sz == Some('w') then 2 else 4
            case _ => 1
  {
    hide Dword;
  }

  lemma SignedByte(sz: Option<char>, raw: int)
    requires ImmBytes(sz, Imm(SByte, raw)).Some?
    ensures (ImmRead(sz, SByte, ImmBytes(sz, Imm(SByte, raw)).value) - raw) % Values(sz) == 0
  {
    hide FromLE, Wrap, Normalized;
    var n := Normalized(raw);
    NormalizedSame(sz, raw);
    OneByte(n % 256);
    NumberBack(n, 0x80);
  }

  lemma UnsignedNumber(sz: Option<char>, i: Imm)
    requires (i.letter == UByte || i.letter == UWord) && ImmBytes(sz, i).Some?
    ensures ImmRead(sz, i.letter, ImmBytes(sz, i).value) == i.raw
    ensures (i.raw - i.raw) % Values(sz) == 0
  {
    hide FromLE, ToLE, Dword, Wrap, Normalized;
    var n := Normalized(i.raw);
    NormalizedSame(sz, i.raw);
    if i.letter == UByte {
      OneByte(n % 256);
    } else {
      WordBack(n);
    }
  }

  lemma SizedNumber(sz: Option<char>, raw: int)
    requires ImmBytes(sz, Imm(Sized, raw)).Some?
    ensures var read := ImmRead(sz, Sized, ImmBytes(sz, Imm(Sized, raw)).value);
      (read - raw) % Values(sz) == 0 && (sz.None? || sz == Some('q') ==> read == raw)
  {
    hide ImmBytes, ImmRead;
    if sz == Some('b') {
      SizedByte(raw);
    } else if sz == Some('w') {
      SizedWord(raw);
    } else {
      SizedDword(sz, raw);
    }
  }

  lemma SizedByte(raw: int)
    requires ImmBytes(Some('b'), Imm(Sized, raw)).Some?
    ensures (ImmRead(Some('b'), Sized, ImmBytes(Some('b'), Imm(Sized, raw)).value) - raw) % 0x100 == 0
  {
    hide FromLE, Wrap, Normalized;
    NormalizedSame(Some('b'), raw);
    OneByte(raw % 256);
    Remainder(raw, raw, 0x100);
  }

  lemma SizedWord(raw: int)
    requires ImmBytes(Some('w'), Imm(Sized, raw)).Some?
    ensures (ImmRead(Some('w'), Sized, ImmBytes(Some('w'), Imm(Sized, raw)).value) - raw) % 0x1_0000 == 0
  {
    hide FromLE, ToLE, Wrap, Normalized;
    NormalizedSame(Some('w'), raw);
    WordBack(raw);
    Remainder(raw, raw, 0x1_0000);
  }

  lemma SizedDword(sz: Option<char>, raw: int)
    requires ImmBytes(sz, Imm(Sized, raw)).Some? && sz != Some('b') && sz != Some('w')
    ensures var read := ImmRead(sz, Sized, ImmBytes(sz, Imm(Sized, raw)).value);
      (read - raw) % Values(sz) == 0 && (sz.None? || sz == Some('q') ==> read == raw)
  {
    hide FromLE, Dword, Wrap, Normalized;
    var n := Normalized(raw);
    NormalizedSame(sz, raw);
    DwordBack(n);
    NumberBack(n, 0x8000_0000);
    Remainder(n, raw, 0x1_0000_0000);
  }

  lemma WordBack(n: int)
    ensures FromLE(ToLE(n % 0x1_0000, 2)) == n % 0x1_0000
  {
    PowTable();
    FromToLE(n % 0x1_0000, 2);
  }

  lemma DwordBack(n: int)
    ensures FromLE(Dword(n)) == n % 0x1_0000_0000
  {
    PowTable();
    FromToLE(n % 0x1_0000_0000, 4);
  }

  lemma NormalizedSame(sz: Option<char>, raw: int)
    ensures var r := SizeRange(sz);
      r.Some? && r.value.0 <= raw <= r.value.1 && sz != Some('d') ==> Normalized(raw) == raw
    ensures (Normalized(raw) - raw) % 0x1_0000_0000 == 0
    ensures 0 <= Normalized(raw) ==> Normalized(raw) == raw
  {
  }

  lemma Remainder(n: int, raw: int, m: int)
    requires 0 < m && (n - raw) % m == 0
    ensures (n % m - raw) % m == 0
  {
    var q, r := n / m, (n - raw) / m;
    assert n == q * m + n % m && n - raw == r * m;
    DivModUnique(n % m - raw, m, r - q, 0) by {
      assert (r - q) * m == r * m - q * m;
    }
  }

  lemma OneByte(b: Byte)
    ensures FromLE([b]) == b
  {
  }

  /**
    The operand sized immediate is refused exactly if the operand size has no such number, signed or
    unsigned; 64 bit operands have those that 32 bits give by sign extension.
   */
  lemma OperandSized(sz: Option<char>, raw: int)
    requires sz.None? || sz.value in {'b', 'w', 'd', 'q'}
    ensures ImmBytes(sz, Imm(Sized, raw)).Some? <==>
      exists bytes: seq<Byte> :: |bytes| == ImmSize(sz) && SpellsNumber(sz, bytes, raw)
  {
    hide FromLE, ToLE, Wrap, ImmBytes, SpellsNumber;
    SizedRange(sz, raw);
    if ImmBytes(sz, Imm(Sized, raw)).Some? {
      var half := Sign(sz);
      NumberSpelled(sz, raw);
      assert |ToLE(raw % (2 * half), ImmSize(sz))| == ImmSize(sz)
          && SpellsNumber(sz, ToLE(raw % (2 * half), ImmSize(sz)), raw);
    }
    forall bytes: seq<Byte> | |bytes| == ImmSize(sz) && SpellsNumber(sz, bytes, raw)
      ensures ImmBytes(sz, Imm(Sized, raw)).Some?
    {
      SpelledRange(sz, bytes, raw);
    }
  }

  /** The weight of the sign bit of an operand sized immediate. */
  function Sign(sz: Option<char>): int
  {
    if sz == Some('b') then 0x80 else if sz == Some('w') then 0x8000 else 0x8000_0000
  }

  lemma SizedRange(sz: Option<char>, raw: int)
    requires sz.None? || sz.value in {'b', 'w', 'd', 'q'}
    ensures ImmBytes(sz, Imm(Sized, raw)).Some?
       <==> -Sign(sz) <= raw < if sz.None? || sz == Some('q') then Sign(sz) else 2 * Sign(sz)
  {
    hide Dword, ToLE;
  }

  lemma NumberSpelled(sz: Option<char>, raw: int)
    requires -Sign(sz) <= raw < if sz.None? || sz == Some('q') then Sign(sz) else 2 * Sign(sz)
    ensures SpellsNumber(sz, ToLE(raw % (2 * Sign(sz)), ImmSize(sz)), raw)
  {
    hide FromLE, ToLE, Wrap;
    PowTable();
    FromToLE(raw % (2 * Sign(sz)), ImmSize(sz));
    NumberBack(raw, Sign(sz));
  }

  lemma SpelledRange(sz: Option<char>, bytes: seq<Byte>, raw: int)
    requires |bytes| == ImmSize(sz) && SpellsNumber(sz, bytes, raw)
    ensures -Sign(sz) <= raw < if sz.None? || sz == Some('q') then Sign(sz) else 2 * Sign(sz)
  {
    hide FromLE, Wrap;
    PowTable();
    FromLEBound(bytes);
  }

  /**
    A signed byte is put exactly for -128 to 127, and for operands of 32 bits, and those without a range,
    for the same numbers as 32 bit patterns; an unsigned byte exactly for 0 to 255, and an unsigned word
    exactly for 0 to 65535, if that is no byte operand.
   */
  lemma LettersExactly(sz: Option<char>, raw: int)
    ensures ImmBytes(sz, Imm(SByte, raw)).Some? <==>
      || -128 <= raw <= 127
      || (sz.Some? && sz.value !in {'b', 'w', 'q'} && 0xFFFF_FF80 <= raw <= 0xFFFF_FFFF)
    ensures ImmBytes(sz, Imm(UByte, raw)).Some? <==> 0 <= raw <= 255
    ensures ImmBytes(sz, Imm(UWord, raw)).Some? <==> 0 <= raw <= (if sz == Some('b') then 255 else 65535)
  {
    hide ToLE, Dword;
  }

  lemma NumberBack(v: int, half: int)
    requires half == 0x80 || half == 0x8000 || half == 0x8000_0000
    ensures 0 <= v < 2 * half ==> v % (2 * half) == v
    ensures -half <= v < half ==> Wrap(v % (2 * half), half) == v
  {
  }

  function ImmSize(sz: Option<char>): nat
  {
    if sz == Some('b') then 1 else if sz == Some('w') then 2 else 4
  }

  /** The bytes are the number, as a signed or unsigned one of the operand size. */
  predicate SpellsNumber(sz: Option<char>, bytes: seq<Byte>, raw: int)
  {
    || raw == Wrap(FromLE(bytes), Sign(sz))
    || (sz.Some? && sz != Some('q') && raw == FromLE(bytes))
  }

  // ----- The encoder -----

  /** The opcode of the short form: EB for E9, and 7x for 0F 8x. */
  function Shortened(out: seq<Byte>): Option<seq<Byte>>
  {
    var n := |out|;
    if n >= 1 && out[n - 1] == 0xE9 then Some(out[..n - 1] + [0xEB])
    else if n >= 2 && out[n - 2] == 0x0F && out[n - 1] / 0x10 == 8 then Some(out[..n - 2] + [out[n - 1] - 0x10])
    else None
  }

  lemma HeadForms(reg: nat, xreg: Option<nat>, xsc: nat, s: nat, m: nat)
    requires m < 3 && xsc < 4
    ensures Head(reg, xreg, xsc, s, m)
         == if xreg.Some? || reg % 8 == 4
            then [ModRm(m, s, 4), ModRm(xsc, if xreg.None? then 4 else xreg.value, reg)] else [ModRm(m, s, reg)]
  {
    hide ModRm;
  }

  lemma AppendOne(out: seq<Byte>, a: Byte)
    ensures out + [a % 256] == out + [a]
  {
  }

  lemma AppendTwo(out: seq<Byte>, a: Byte, b: Byte)
    ensures out + [a % 256] + [b % 256] == out + [a, b]
  {
  }

  class Encoder {
    const hasHigh: bool
    var out: seq<Byte>
    var fixups: seq<Fix>

    /** What every operation keeps, one that fails too. */
    predicate Valid()
      reads this
    {
      FixesOk(out, fixups)
    }

    constructor (hasHigh: bool)
      ensures Valid() && this.hasHigh == hasHigh && out == [] && fixups == []
    {
      this.hasHigh, out, fixups := hasHigh, [], [];
    }

    method PutB(n: int)
      requires Valid()
      modifies `out
      ensures Valid() && out == old(out) + [n % 256]
    {
      hide FixesOk;
      FixesGrow(out, fixups, [n % 256]);
      out := out + [n % 256];
    }

    method PutD(n: int)
      requires Valid()
      modifies `out
      ensures Valid() && out == old(out) + Dword(n)
    {
      hide FixesOk;
      FixesGrow(out, fixups, Dword(n));
      out := out + Dword(n);
    }

    /** Zeros for the linker to fill, and the fixup over them. */
    method PutField(field: Field, sym: Sym, addend: int)
      requires Valid() && 0 < FieldSize(field)
      modifies `out, `fixups
      ensures Valid() && out == old(out) + Zeros(FieldSize(field))
      ensures fixups == old(fixups) + [Fix(|old(out)|, field, sym, addend)]
    {
      hide FixesOk;
      FixesNext(out, fixups, field, sym, addend);
      fixups := fixups + [Fix(|out|, field, sym, addend)];
      out := out + Zeros(FieldSize(field));
    }

    /**
      The target of a jump or call. The short form changes the opcode before it; false is the
      EncodeError of an instruction that has none.
     */
    method PutBranch(short: bool, sym: Sym) returns (ok: bool)
      requires Valid() && fixups == []
      modifies `out, `fixups
      ensures Valid()
      ensures ok == (short ==> Shortened(old(out)).Some?)
      ensures ok ==>
        && var head := if short then Shortened(old(out)).value else old(out);
        && var field := BranchField(if short then 1 else 4);
        && out == head + Zeros(FieldSize(field)) && fixups == [Fix(|head|, field, sym, 0)]
    {
      hide FixesOk;
      if short {
        if Shortened(out).None? {
          return false;
        }
        NoFixes(Shortened(out).value);
        out := Shortened(out).value;
        PutField(BranchField(1), sym, 0);
      } else {
        PutField(BranchField(4), sym, 0);
      }
      return true;
    }

    /** `immediate` for a number: false is the EncodeError of one that is out of range. */
    method PutImmediate(sz: Option<char>, i: Imm) returns (ok: bool)
      requires Valid()
      modifies `out
      ensures Valid() && ok == ImmBytes(sz, i).Some?
      ensures ok ==> out == old(out) + ImmBytes(sz, i).value
    {
      hide FixesOk, ToLE;
      var n := Normalized(i.raw);
      if SizeRange(sz).Some? && !(SizeRange(sz).value.0 <= i.raw <= SizeRange(sz).value.1) {
        return false;
      }
      match i.letter {
        case SByte =>
          ok := -128 <= n <= 127;
          PutB(n);
        case UByte =>
          ok := 0 <= n <= 255;
          PutB(n);
        case UWord =>
          ok := 0 <= n <= 0xFFFF;
          PutBytes(ToLE(n % 0x1_0000, 2));
        case Sized =>
          if sz.None? || sz == Some('d') || sz == Some('q') {
            PutD(n);
            return true;
          } else if sz == Some('w') {
            ok := -0x8000 <= n < 0x1_0000;
            PutBytes(ToLE(n % 0x1_0000, 2));
          } else if sz == Some('b') {
            ok := -128 <= n <= 255;
            PutB(n);
          } else {
            return false;
          }
      }
    }

    /** The immediates of a pattern, one after the other. */
    method PutImmediates(sz: Option<char>, imms: seq<Imm>) returns (ok: bool)
      requires Valid()
      modifies `out
      ensures Valid() && ok == ImmsBytes(sz, imms).Some?
      ensures ok ==> out == old(out) + ImmsBytes(sz, imms).value
    {
      hide FixesOk, ImmBytes;
      assert out + [] == out;
      for k := 0 to |imms|
        invariant Valid() && ImmsBytes(sz, imms[..k]).Some? && out == old(out) + ImmsBytes(sz, imms[..k]).value
      {
        ImmsNext(sz, imms, k);
        ok := PutImmediate(sz, imms[k]);
        if !ok {
          return false;
        }
      }
      assert imms[..|imms|] == imms;
      ok := true;
    }

    method PutBytes(bytes: seq<Byte>)
      requires Valid()
      modifies `out
      ensures Valid() && out == old(out) + bytes
    {
      hide FixesOk;
      FixesGrow(out, fixups, bytes);
      out := out + bytes;
    }

    /**
      False is the EncodeError of ah, ch, dh or bh together with REX, of a memory operand in vvvv, or
      of a VEX opcode of more than one byte.
     */
    method PutOp(sz: Option<char>, opcode: nat, rexNumber: nat, vex: Option<Vex>) returns (ok: bool)
      requires Valid() && (vex.Some? ==> IsVex(vex.value))
      modifies `out
      ensures Valid()
      ensures ok == if vex.Some? then (vex.value.v.Some? ==> vex.value.v.value.RegArg?) && opcode < 0x100
                    else rexNumber == 0 || !hasHigh
      ensures ok ==> out == old(out) + FullOp(sz, opcode, rexNumber, vex)
    {
      hide OpBytes, FixesOk, VexBytes, IsVex;
      if vex.Some? {
        ok := PutVex(sz, rexNumber, vex.value);
        if !ok || opcode >= 0x100 {
          return false;
        }
        PutOpcode(sz, opcode, 0);
        return true;
      }
      if rexNumber != 0 && hasHigh {
        return false;
      }
      PutOpcode(sz, opcode, rexNumber);
      return true;
    }

    /** The rest of `putop`. */
    method PutOpcode(sz: Option<char>, opcode: nat, rex: nat)
      requires Valid()
      modifies `out
      ensures Valid()
      ensures out == old(out) + OpBytes(sz, opcode, rex)
    {
      hide HighBytes, FixesOk;
      var op := opcode;
      if sz == Some('w') {
        PutB(0x66);
      }
      if op >= 0x1_0000_0000 {
        PutB(op / 0x1_0000_0000);
        op := op % 0x1_0000_0000;
      }
      PutHigh(sz, op, rex);
    }

    /** The VEX branch of `putop`. */
    method PutVex(sz: Option<char>, rex: nat, vex: Vex) returns (ok: bool)
      requires Valid() && IsVex(vex)
      modifies `out
      ensures Valid()
      ensures ok == VexAccepts(vex)
      ensures ok ==> out == old(out) + VexBytes(vex, sz, rex)
    {
      hide FixesOk;
      var tail: int;
      if vex.m == 1 && rex % 4 == 0 && rex / 8 % 2 == 0 {
        PutB(0xC5);
        tail := (1 - rex / 4 % 2) * 0x80;
      } else {
        PutB(0xC4);
        PutB((7 - rex % 8) * 32 + vex.m);
        tail := rex / 8 % 2 * 0x80;
      }
      var reg := 0;
      if vex.v.Some? {
        if vex.v.value.MemArg? {
          return false;
        }
        reg := vex.v.value.code;
      }
      if sz == Some('y') || vex.l {
        tail := tail + 4;
      }
      PutB(tail + (15 - reg) * 8 + vex.p);
      return true;
    }

    /** The rest of an opcode below 2**32. */
    method PutHigh(sz: Option<char>, opcode: nat, rex: nat)
      requires opcode < 0x1_0000_0000
      requires Valid()
      modifies `out
      ensures Valid()
      ensures out == old(out) + HighBytes(sz, opcode, rex)
    {
      hide MidBytes, FixesOk;
      var op := opcode;
      if op >= 0x100_0000 {
        PutB(op / 0x100_0000);
        op := op % 0x100_0000;
      }
      PutEscape(sz, op, rex);
    }

    /** The rest of an opcode below 2**24, with REX before its escape. */
    method PutEscape(sz: Option<char>, opcode: nat, prefix: nat)
      requires opcode < 0x100_0000
      requires Valid()
      modifies `out
      ensures Valid()
      ensures out == old(out) + MidBytes(sz, opcode, prefix)
    {
      hide LowBytes, FixesOk;
      var op, rex := opcode, prefix;
      if op >= 0x1_0000 {
        if rex != 0 {
          var opc3 := op / 0x100;
          if opc3 == 0x0F3A || opc3 == 0x0F38 {
            PutB(0x40 + rex % 16);
            rex := 0;
          }
        }
        PutB(op / 0x1_0000);
        op := op % 0x1_0000;
      }
      PutLow(sz, op, rex);
    }

    method PutLow(sz: Option<char>, opcode: nat, prefix: nat)
      requires opcode < 0x1_0000
      requires Valid()
      modifies `out
      ensures Valid()
      ensures out == old(out) + LowBytes(sz, opcode, prefix)
    {
      hide FixesOk;
      var op: int, rex := opcode, prefix;
      if op >= 0x100 {
        var b := op / 0x100;
        if b == 0x0F && rex != 0 {
          PutB(0x40 + rex % 16);
          rex := 0;
        }
        PutB(b);
        op := op % 0x100;
      }
      if rex != 0 {
        PutB(0x40 + rex % 16);
      }
      if sz == Some('b') {
        op := op - 1;
      }
      PutB(op);
    }

    /** False is the EncodeError of an absolute address that needs mov64. */
    method PutMrmSib(t: Arg, s: nat) returns (ok: bool)
      requires IsArg(t)
      requires Valid()
      modifies `out, `fixups
      ensures Valid()
      ensures ok == MrmSib(t, s).Some?
      ensures ok ==>
        && out == old(out) + MrmSib(t, s).value.bytes
        && fixups == old(fixups) + match MrmSib(t, s).value.fix
             case None => []
             case Some(f) => [f.(off := |old(out)| + f.off)]
    {
      hide ModRm, Dword, FixesOk;
      if t.RegArg? {
        PutB(ModRm(3, s, t.code));
        ok := true;
      } else if t.riprel {
        PutB(ModRm(0, s, 5));
        if t.sym.Some? {
          assert Zeros(4) == [0, 0, 0, 0];
          PutField(RipField, t.sym.value, t.disp);
        } else {
          PutD(t.disp);
        }
        ok := true;
      } else if t.reg.None? {
        ok := PutNoBase(t, s);
      } else {
        PutBase(t, s);
        ok := true;
      }
    }

    /** `[xreg*xsc+disp]` and `[disp]` */
    method PutNoBase(t: Arg, s: nat) returns (ok: bool)
      requires IsArg(t) && t.MemArg? && !t.riprel && t.reg.None?
      requires Valid()
      modifies `out
      ensures Valid()
      ensures ok == MrmSib(t, s).Some?
      ensures ok ==> MrmSib(t, s).value.fix == None && out == old(out) + MrmSib(t, s).value.bytes
    {
      hide BareHead, Dword, FixesOk;
      NoBaseForm(t, s);
      hide MrmSib;
      PutBareHead(t, s);
      var disp := t.disp;
      if disp >= 0x8000_0000_0000_0000 {
        disp := disp - 0x1_0000_0000_0000_0000;
      }
      if !(-0x8000_0000 <= disp < 0x8000_0000) {
        return false;
      }
      PutD(disp);
      return true;
    }

    method PutBareHead(t: Arg, s: nat)
      requires IsArg(t) && t.MemArg?
      requires Valid()
      modifies `out
      ensures Valid() && out == old(out) + BareHead(t.xreg, t.xsc, s)
    {
      hide ModRm, FixesOk;
      PutB(ModRm(0, s, 4));
      if t.xreg.Some? {
        PutB(ModRm(t.xsc, t.xreg.value, 5));
      } else {
        PutB(ModRm(0, 4, 5));
      }
      AppendTwo(old(out), BareHead(t.xreg, t.xsc, s)[0], BareHead(t.xreg, t.xsc, s)[1]);
    }

    method PutHead(t: Arg, s: nat, m: nat)
      requires IsArg(t) && t.MemArg? && t.reg.Some? && m < 3
      requires Valid()
      modifies `out
      ensures Valid() && out == old(out) + Head(t.reg.value, t.xreg, t.xsc, s, m)
    {
      var reg := t.reg.value;
      HeadForms(reg, t.xreg, t.xsc, s, m);
      hide ModRm, FixesOk, IsArg, Head;
      if t.xreg.Some? || reg % 8 == 4 {
        var first, second := ModRm(m, s, 4), ModRm(t.xsc, if t.xreg.None? then 4 else t.xreg.value, reg);
        AppendTwo(out, first, second);
        PutB(first);
        PutB(second);
      } else {
        AppendOne(out, ModRm(m, s, reg));
        PutB(ModRm(m, s, reg));
      }
    }

    /** `[reg+disp]` and `[reg+xreg*xsc+disp]` */
    method PutBase(t: Arg, s: nat)
      requires IsArg(t) && t.MemArg? && !t.riprel && t.reg.Some?
      requires Valid()
      modifies `out
      ensures Valid()
      ensures MrmSib(t, s).Some? && MrmSib(t, s).value.fix == None && out == old(out) + MrmSib(t, s).value.bytes
    {
      BaseForm(t, s);
      hide Head, Tail, Mode, MrmSib, FixesOk;
      var m := Mode(t.reg.value, t.disp);
      PutHead(t, s, m);
      PutTail(m, t.disp);
    }

    method PutTail(m: nat, disp: int)
      requires Valid()
      modifies `out
      ensures Valid()
      ensures out == old(out) + Tail(m, disp)
    {
      hide FixesOk;
      if m == 1 {
        PutB(disp);
      } else if m == 2 {
        PutD(disp);
      }
    }

    method RexNumber(szov: Option<char>, forced: bool, needrex: bool, t: Arg, s: nat) returns (rex: nat)
      requires IsArg(t)
      ensures rex == RexOf(szov, forced, needrex, t, s)
    {
      rex := if forced then 8 else 0;
      if szov == Some('q') && rex == 0 {
        rex := rex + 8;
      }
      var reg, xreg := if t.RegArg? then Some(t.code) else t.reg, if t.RegArg? then None else t.xreg;
      if reg.Some? && reg.value > 7 {
        rex := rex + 1;
      }
      if xreg.Some? && xreg.value > 7 {
        rex := rex + 2;
      }
      if s > 7 {
        rex := rex + 4;
      }
      if needrex {
        rex := rex + 16;
      }
    }

    /** The `m` branch of `dopattern`: `opcode` still has the register or digit of `spare` merged in. */
    method Operand(szov: Option<char>, opcode: nat, spare: Spare, t: Arg, forced: bool, needrex: bool, vex: Option<Vex>)
      returns (ok: bool)
      requires Valid() && IsArg(t) && IsSpare(spare) && (vex.Some? ==> IsVex(vex.value))
      modifies `out, `fixups
      ensures Valid()
      ensures var s := Spared(spare);
        var rex := RexOf(szov, forced, needrex, t, s);
        && ok == (OpAccepts(opcode, rex, vex, hasHigh) && MrmSib(t, s).Some?)
        && (ok ==>
              && out == old(out) + FullOp(szov, opcode, rex, vex) + MrmSib(t, s).value.bytes
              && fixups == old(fixups) + match MrmSib(t, s).value.fix
                   case None => []
                   case Some(f) => [f.(off := |old(out)| + |FullOp(szov, opcode, rex, vex)| + f.off)])
    {
      hide FullOp, MrmSib, RexOf, FixesOk, IsVex;
      var merged := match spare case Code(c) => opcode + c % 8 case Digit(d) => opcode * 16 + d;
      var s, op: nat;
      if spare.Code? {
        s := spare.code;
        op := merged - s % 8;
      } else {
        s := merged % 16;
        op := merged / 16;
      }
      var rex := RexNumber(szov, forced, needrex, t, s);
      ok := PutOp(szov, op, rex, vex);
      if ok {
        ok := PutMrmSib(t, s);
      }
    }
  }

  // ----- What the processor makes of it -----

  /** `rexed`: there is a REX prefix, whatever its bits. */
  datatype Insn = Insn(
    prefixes: seq<Byte>, rexed: bool, escape: Escape, opcode: Byte, wide: bool, reg: nat, rm: Operand, addressSize: nat,
    length: nat)

  /** An instruction with a ModRM byte, up to the end of its displacement. */
  function DecodeInsn(bytes: seq<Byte>): Option<Insn>
  {
    match ParseOpcode(bytes)
    case None => None
    case Some(p) =>
      var rex := if p.rex.Some? then p.rex.value % 16 else 0;
      if p.length > |bytes| then None
      else
        match DecodeModRm(rex / 4 % 2, rex / 2 % 2, rex % 2, bytes[p.length..])
        case None => None
        case Some(d) =>
          Some(Insn(p.prefixes, p.rex.Some?, p.escape, p.opcode, rex / 8 == 1, d.reg, d.rm,
                    if 0x67 in p.prefixes then 4 else 8, p.length + d.length))
  }

  /** An instruction with a VEX prefix and a ModRM byte, up to the end of its displacement. */
  datatype VexInsn = VexInsn(
    opcodeMap: nat, pp: nat, wide: bool, long: bool, vvvv: nat, opcode: Byte, reg: nat, rm: Operand, addressSize: nat,
    length: nat)

  function DecodeVex(bytes: seq<Byte>): Option<VexInsn>
  {
    var front := if bytes != [] && bytes[0] == 0x67 then 1 else 0;
    match ParseVex(bytes[front..])
    case None => None
    case Some(p) =>
      var at := front + p.length;
      if at >= |bytes| then None
      else
        match DecodeModRm(p.r, p.x, p.b, bytes[at + 1..])
        case None => None
        case Some(d) =>
          Some(VexInsn(p.opcodeMap, p.pp, p.w == 1, p.long, p.vvvv, bytes[at], d.reg, d.rm, if front == 1 then 4 else 8,
                       at + 1 + d.length))
  }

  /** `_needs_addr32` */
  predicate NeedsAddr32(m: MemExpr)
  {
    || (m.base.Some? && m.base.value.Gp? && m.base.value.size == 4)
    || (m.index.Some? && m.index.value.Gp? && m.index.value.size == 4)
  }

  /** The address a memory operand selects, in the address space of its size. */
  function Effective(rm: Operand, addressSize: nat, values: Reg -> int): int
    requires rm.Memory?
  {
    (if rm.base.Some? then values(Gp(rm.base.value, addressSize)) else 0)
    + (if rm.index.Some? then values(Gp(rm.index.value, addressSize)) * rm.scale else 0)
    + rm.disp
  }

  lemma RexFields(szov: Option<char>, forced: bool, needrex: bool, t: Arg, s: nat)
    requires IsArg(t) && s < 16
    ensures var n := RexOf(szov, forced, needrex, t, s);
      && n % 16 / 8 == (if forced || szov == Some('q') then 1 else 0) && n % 16 / 4 % 2 == s / 8
      && n % 16 / 2 % 2 == RexX(t) && n % 16 % 2 == RexB(t) && Rex(n) % 16 == n % 16
  {
    assert RexB(t) < 2 && RexX(t) < 2;
    RexSum(if forced || szov == Some('q') then 1 else 0, s / 8, RexX(t), RexB(t), if needrex then 1 else 0);
  }

  lemma RexSum(w: nat, r: nat, x: nat, b: nat, k: nat)
    requires w < 2 && r < 2 && x < 2 && b < 2 && k < 2
    ensures var n := 8 * w + b + 2 * x + 4 * r + 16 * k;
      n % 16 / 8 == w && n % 16 / 4 % 2 == r && n % 16 / 2 % 2 == x && n % 16 % 2 == b && Rex(n) % 16 == n % 16
  {
    DivModUnique(8 * w + b + 2 * x + 4 * r + 16 * k, 16, k, 8 * w + 4 * r + 2 * x + b);
  }

  /**
    Any emitted instruction with a ModRM operand decodes, whatever follows it, to the table's
    opcode, the operand size and register asked for, the operand asked for, and its own length.
   */
  lemma InstructionDecodes(front: seq<Byte>, o: Opcode, szov: Option<char>, forced: bool, needrex: bool, t: Arg, s: nat,
                           rest: seq<Byte>)
    requires IsOpcode(o, szov) && IsArg(t) && s < 16 && MrmSib(t, s).Some? && (front == [] || front == [0x67])
    ensures var rex := RexOf(szov, forced, needrex, t, s);
      var bytes := front + OpBytes(szov, Number(o), rex) + MrmSib(t, s).value.bytes;
      DecodeInsn(bytes + rest)
      == Some(Insn(front + (if szov == Some('w') then [0x66] else []) + o.prefixes,
                   NeedsRex(szov, forced, needrex, t, s), o.escape,
                   if szov == Some('b') then o.byte - 1 else o.byte, forced || szov == Some('q'),
                   s, Wanted(t), if front == [0x67] then 4 else 8, |bytes|))
  {
    hide OpBytes, MrmSib, RexOf, RexX, RexB, DecodeModRm, ParseOpcode, Number, Wanted, Rex, NeedsRex;
    var rex := RexOf(szov, forced, needrex, t, s);
    var op, tail := OpBytes(szov, Number(o), rex), MrmSib(t, s).value.bytes;
    RexFields(szov, forced, needrex, t, s);
    RexedIs(szov, forced, needrex, t, s);
    OpcodeParses(front, o, szov, rex, tail + rest);
    OperandDecodes(t, s, rest);
    assert front + op + tail + rest == front + op + (tail + rest);
    assert (front + op + tail + rest)[|front| + |op|..] == tail + rest;
    NoAddressPrefix(o);
  }

  /**
    Any emitted instruction with VEX and a ModRM operand decodes, whatever follows it, to the map, the
    implied prefix, the register in vvvv, and the operand and size asked for.
   */
  lemma VexDecodes(front: seq<Byte>, vex: Vex, op: Byte, szov: Option<char>, forced: bool, needrex: bool, t: Arg,
                   s: nat, rest: seq<Byte>)
    requires IsVex(vex) && szov != Some('w') && szov != Some('b')
    requires IsArg(t) && s < 16 && MrmSib(t, s).Some? && (front == [] || front == [0x67])
    ensures var rex := RexOf(szov, forced, needrex, t, s);
      var bytes := front + FullOp(szov, op, rex, Some(vex)) + MrmSib(t, s).value.bytes;
      DecodeVex(bytes + rest)
      == Some(VexInsn(vex.m, vex.p, forced || szov == Some('q'), szov == Some('y') || vex.l,
                      if vex.v.Some? && vex.v.value.RegArg? then vex.v.value.code else 0, op, s, Wanted(t),
                      if front == [0x67] then 4 else 8, |bytes|))
  {
    VexRegIs(vex);
    hide MrmSib, RexOf, RexX, RexB, DecodeModRm, ParseVex, VexBytes, Wanted, Rex, IsVex, VexReg, IsArg;
    var rex := RexOf(szov, forced, needrex, t, s);
    var prefix, tail := VexBytes(vex, szov, rex), MrmSib(t, s).value.bytes;
    VexRex(szov, forced, needrex, t, s);
    FullVex(szov, op, rex, vex);
    hide FullOp;
    VexParses(vex, szov, rex, [op] + tail + rest);
    VexStart(vex, szov, rex);
    OperandDecodes(t, s, rest);
    VexParts(front, prefix, op, tail, rest);
  }

  lemma VexParts(front: seq<Byte>, prefix: seq<Byte>, op: Byte, tail: seq<Byte>, rest: seq<Byte>)
    ensures var all := front + (prefix + [op]) + tail + rest;
      && all[|front|..] == prefix + ([op] + tail + rest)
      && all[|front| + |prefix|] == op && all[|front| + |prefix| + 1..] == tail + rest
  {
  }

  lemma VexRex(szov: Option<char>, forced: bool, needrex: bool, t: Arg, s: nat)
    requires IsArg(t) && s < 16
    ensures var n := RexOf(szov, forced, needrex, t, s);
      && n / 8 % 2 == (if forced || szov == Some('q') then 1 else 0) && n / 4 % 2 == s / 8
      && n / 2 % 2 == RexX(t) && n % 2 == RexB(t)
  {
    hide RexOf, RexX, RexB, Rex;
    RexFields(szov, forced, needrex, t, s);
    var w, r, x, b := RexBits(RexOf(szov, forced, needrex, t, s));
  }

  lemma FullVex(sz: Option<char>, op: Byte, rex: nat, vex: Vex)
    requires sz != Some('w') && sz != Some('b')
    ensures FullOp(sz, op, rex, Some(vex)) == VexBytes(vex, sz, rex) + [op]
  {
    hide VexBytes;
    assert OpBytes(sz, op, 0) == [op];
  }

  lemma VexStart(vex: Vex, sz: Option<char>, rex: nat)
    ensures VexBytes(vex, sz, rex) != [] && VexBytes(vex, sz, rex)[0] != 0x67
  {
  }

  lemma NoAddressPrefix(o: Opcode)
    requires forall p | p in o.prefixes :: Mandatory(p)
    ensures 0x67 !in o.prefixes
  {
  }

  lemma Scales(scale: int)
    requires scale == 1 || scale == 2 || scale == 4 || scale == 8
    ensures ScaleCode(scale) < 4 && Pow2(ScaleCode(scale)) == scale
  {
    PowTable();
  }

  /**
    The memory operand of the source and the one the processor decodes have the same address,
    modulo the size of the address space, for all register values.
   */
  lemma AddressPreserved(m: MemExpr, values: Reg -> int, syms: Sym -> int)
    requires Encodable(m)
    requires m.base.Some? && m.base.value.Gp? ==> m.base.value.code < 16
    requires m.index.Some? ==> m.index.value.code < 16
    ensures IsArg(ClassifyMem(m)) && (m.index.None? ==> ClassifyMem(m).xsc == 0)
    ensures m.base != Some(Rip) ==>
      var a := if NeedsAddr32(m) then 4 else 8;
      var rm := Wanted(ClassifyMem(m));
      && rm.Memory?
      && (NeedsAddr32(m) ==> Effective(rm, a, values) == Address(m, values, syms))
      && SameAddress(Effective(rm, a, values), Address(m, values, syms))
    ensures m.base == Some(Rip) ==> Wanted(ClassifyMem(m)) == RipRelative(if m.sym.Some? then 0 else m.disp)
  {
    hide Pow2;
    Scales(m.scale);
  }

  /**
    From the memory expression to the processor: with the address size prefix that `_needs_addr32`
    asks for, the decoded instruction addresses what the expression says, for all register values.
    A rip-relative operand decodes to its displacement, or to a zero field that a fixup covers.
   */
  lemma InstructionMeans(m: MemExpr, o: Opcode, szov: Option<char>, forced: bool, needrex: bool, s: nat,
                         rest: seq<Byte>, values: Reg -> int, syms: Sym -> int)
    requires Encodable(m)
    requires m.base.Some? && m.base.value.Gp? ==> m.base.value.code < 16
    requires m.index.Some? ==> m.index.value.code < 16
    requires IsOpcode(o, szov) && s < 16
    requires MrmSib(ClassifyMem(m), s).Some?
    ensures IsArg(ClassifyMem(m))
    ensures var t := ClassifyMem(m);
      var rex := RexOf(szov, forced, needrex, t, s);
      var bytes := (if NeedsAddr32(m) then [0x67] else []) + OpBytes(szov, Number(o), rex)
                   + MrmSib(t, s).value.bytes;
      && DecodeInsn(bytes + rest).Some?
      && var insn := DecodeInsn(bytes + rest).value;
      && insn.length == |bytes| && insn.reg == s && insn.escape == o.escape
      && insn.opcode == (if szov == Some('b') then o.byte - 1 else o.byte)
      && insn.rexed == NeedsRex(szov, forced, needrex, t, s)
      && insn.wide == (forced || szov == Some('q')) && insn.addressSize == (if NeedsAddr32(m) then 4 else 8)
      && (m.base != Some(Rip) ==>
            && insn.rm.Memory?
            && SameAddress(Effective(insn.rm, insn.addressSize, values), Address(m, values, syms)))
      && (m.base == Some(Rip) ==>
            && insn.rm == RipRelative(if m.sym.Some? then 0 else m.disp)
            && MrmSib(t, s).value.fix == if m.sym.Some? then Some(Fix(1, RipField, m.sym.value, m.disp)) else None)
  {
    hide Pow2, ModRm, Dword, OpBytes, Number, RexOf, DecodeInsn, Effective, Address, NeedsAddr32, NeedsRex;
    AddressPreserved(m, values, syms);
    InstructionDecodes(if NeedsAddr32(m) then [0x67] else [], o, szov, forced, needrex, ClassifyMem(m), s, rest);
  }

  // ----- fwait in front -----

  /** An fwait with the prefixes before it is an instruction of its own. */
  predicate IsWait(bytes: seq<Byte>)
  {
    bytes != [] && if bytes[0] == FWAIT then |bytes| == 1 else IsPrefix(bytes[0]) && IsWait(bytes[1..])
  }

  predicate Waits(o: Opcode, sz: Option<char>)
  {
    IsCoded(o, sz) && o.prefixes != [] && o.prefixes[0] == FWAIT && IsOpcode(AfterWait(o), sz)
  }

  function AfterWait(o: Opcode): Opcode
    requires o.prefixes != []
  {
    o.(prefixes := o.prefixes[1..])
  }

  /** How many bytes the fwait takes, with the prefixes that were put before it. */
  function WaitLength(front: seq<Byte>, sz: Option<char>): nat
  {
    |front| + (if sz == Some('w') then 1 else 0) + 1
  }

  /**
    An instruction with fwait in front is two: the fwait takes the prefixes that come before it, and
    what follows decodes without them.
   */
  lemma WaitDecodes(front: seq<Byte>, o: Opcode, szov: Option<char>, forced: bool, needrex: bool, t: Arg, s: nat,
                    rest: seq<Byte>)
    requires Waits(o, szov) && IsArg(t) && s < 16 && MrmSib(t, s).Some? && (front == [] || front == [0x67])
    ensures var rex := RexOf(szov, forced, needrex, t, s);
      var bytes := front + OpBytes(szov, Number(o), rex) + MrmSib(t, s).value.bytes;
      var n := WaitLength(front, szov);
      && n <= |bytes| && IsWait(bytes[..n])
      && DecodeInsn((bytes + rest)[n..])
         == Some(Insn(o.prefixes[1..], NeedsRex(szov, forced, needrex, t, s), o.escape,
                      if szov == Some('b') then o.byte - 1 else o.byte,
                      forced || szov == Some('q'), s, Wanted(t), 8, |bytes| - n))
  {
    hide OpBytes, MrmSib, RexOf, DecodeInsn, Number, Wanted, IsArg, IsCoded, IsOpcode, IsWait, NeedsRex;
    var rex := RexOf(szov, forced, needrex, t, s);
    var sz := if szov == Some('w') then None else szov;
    var sized := front + if szov == Some('w') then [0x66] else [];
    SameRexOf(szov, sz, forced, needrex, t, s);
    WaitBytes(o, szov, sz, rex);
    var next, tail := OpBytes(sz, Number(AfterWait(o)), rex), MrmSib(t, s).value.bytes;
    SizedDecodes(AfterWait(o), sz, forced, needrex, t, s, rest);
    WaitParts(sized, next, tail, rest);
    assert front + OpBytes(szov, Number(o), rex) + tail == sized + [FWAIT] + next + tail;
    WaitFront(sized);
  }

  /** The plain form of an instruction without a prefix for its size. */
  lemma SizedDecodes(o: Opcode, sz: Option<char>, forced: bool, needrex: bool, t: Arg, s: nat, rest: seq<Byte>)
    requires IsOpcode(o, sz) && sz != Some('w') && IsArg(t) && s < 16 && MrmSib(t, s).Some?
    ensures var bytes := OpBytes(sz, Number(o), RexOf(sz, forced, needrex, t, s)) + MrmSib(t, s).value.bytes;
      DecodeInsn(bytes + rest)
      == Some(Insn(o.prefixes, NeedsRex(sz, forced, needrex, t, s), o.escape,
                   if sz == Some('b') then o.byte - 1 else o.byte, forced || sz == Some('q'), s,
                   Wanted(t), 8, |bytes|))
  {
    hide OpBytes, MrmSib, RexOf, DecodeInsn, Number, Wanted, IsArg, IsOpcode, NeedsRex;
    InstructionDecodes([], o, sz, forced, needrex, t, s, rest);
    var op := OpBytes(sz, Number(o), RexOf(sz, forced, needrex, t, s));
    assert [] + op == op && [] + [] + o.prefixes == o.prefixes;
  }

  lemma SameRexOf(a: Option<char>, b: Option<char>, forced: bool, needrex: bool, t: Arg, s: nat)
    requires a == Some('q') <==> b == Some('q')
    ensures RexOf(a, forced, needrex, t, s) == RexOf(b, forced, needrex, t, s)
    ensures NeedsRex(a, forced, needrex, t, s) == NeedsRex(b, forced, needrex, t, s)
  {
  }

  lemma WaitBytes(o: Opcode, szov: Option<char>, sz: Option<char>, rex: nat)
    requires Waits(o, szov) && sz == if szov == Some('w') then None else szov
    ensures IsOpcode(AfterWait(o), sz)
    ensures OpBytes(szov, Number(o), rex)
         == (if szov == Some('w') then [0x66] else []) + [FWAIT] + OpBytes(sz, Number(AfterWait(o)), rex)
  {
    hide OpBytes, Number;
    PrefixBytes(o, szov, rex);
    PrefixBytes(AfterWait(o), sz, rex);
    assert EscapeBytes(o, szov, rex) == EscapeBytes(AfterWait(o), sz, rex);
    hide EscapeBytes;
    assert o.prefixes == [FWAIT] + o.prefixes[1..];
    assert [] + o.prefixes[1..] + EscapeBytes(o, szov, rex) == o.prefixes[1..] + EscapeBytes(o, szov, rex);
  }

  lemma WaitParts(sized: seq<Byte>, next: seq<Byte>, tail: seq<Byte>, rest: seq<Byte>)
    ensures var all := sized + [FWAIT] + next + tail;
      && all[..|sized| + 1] == sized + [FWAIT] && (all + rest)[|sized| + 1..] == next + tail + rest
  {
  }

  lemma WaitFront(sized: seq<Byte>)
    requires sized == [] || sized == [0x66] || sized == [0x67] || sized == [0x67, 0x66]
    ensures IsWait(sized + [FWAIT])
  {
    assert IsWait([FWAIT]);
    assert ([0x66] + [FWAIT])[1..] == [FWAIT] && ([0x67] + [FWAIT])[1..] == [FWAIT];
    assert ([0x67, 0x66] + [FWAIT])[1..] == [0x66] + [FWAIT];
  }

  /** A 32 bit register is the low half of its 64 bit register. */
  ghost predicate Consistent(values: Reg -> int)
  {
    forall code: nat :: values(Gp(code, 4)) == values(Gp(code, 8)) % 0x1_0000_0000
  }

  /** The address that the instruction after an fwait computes is the expression's. */
  predicate MeansAfterWait(m: MemExpr, values: Reg -> int, syms: Sym -> int)
    requires Encodable(m)
  {
    Wanted(ClassifyMem(m)).Memory?
    && SameAddress(Effective(Wanted(ClassifyMem(m)), 8, values), Address(m, values, syms))
  }

  /**
    The address size prefix is spent on the fwait, so the instruction after it addresses what the
    expression says, for all register values, exactly if no 32 bit register is in it.
   */
  lemma WaitMeansExactly(m: MemExpr, syms: Sym -> int)
    requires Encodable(m) && m.base != Some(Rip)
    requires m.base.Some? ==> m.base.value.code < 16
    requires m.index.Some? ==> m.index.value.code < 16
    ensures (forall values: Reg -> int | Consistent(values) :: MeansAfterWait(m, values, syms)) <==> !NeedsAddr32(m)
  {
    hide Pow2;
    Scales(m.scale);
    if NeedsAddr32(m) {
      var values := UpperHalves();
      assert !MeansAfterWait(m, values, syms);
    } else {
      forall values: Reg -> int | Consistent(values)
        ensures MeansAfterWait(m, values, syms)
      {
        AddressPreserved(m, values, syms);
      }
    }
  }

  /** Registers whose upper half is 1 and whose lower half is 0. */
  function UpperHalves(): (values: Reg -> int)
    ensures Consistent(values)
  {
    (r: Reg) => if r.Gp? && r.size == 8 then 0x1_0000_0000 else 0
  }

  /** `fstenv [eax]` is an fwait of two bytes, and then `fstenv [rax]`. */
  lemma WaitExample()
    ensures var bytes := [0x67, 0x9B, 0xD9, 0x30];
      && IsWait(bytes[..2])
      && DecodeInsn(bytes[2..]) == Some(Insn([], false, NoEscape, 0xD9, false, 6, Memory(Some(0), None, 1, 0), 8, 2))
  {
    var bytes: seq<Byte> := [0x67, 0x9B, 0xD9, 0x30];
    assert bytes[..2] == [0x67] + [FWAIT];
    WaitFront([0x67]);
    assert bytes[2..] == [0xD9, 0x30] && [0xD9, 0x30][1..] == [0x30];
    var tail: seq<Byte> := [0x30];
    assert tail[1..] == [];
  }

  // ----- Jumps and mov64 -----

  datatype Jump = Call | Jmp | Jcc(cond: nat)

  predicate IsJump(j: Jump)
  {
    j.Jcc? ==> j.cond < 16
  }

  /** The number that the table spells for the long form. */
  function JumpNumber(j: Jump): nat
  {
    match j case Call => 0xE8 case Jmp => 0xE9 case Jcc(c) => 0x0F80 + c
  }

  /** The opcode bytes of an accepted jump. */
  function JumpHead(j: Jump, short: bool): (head: seq<Byte>)
    requires IsJump(j)
  {
    match j
    case Call => [0xE8]
    case Jmp => [if short then 0xEB else 0xE9]
    case Jcc(c) => if short then [0x70 + c] else [0x0F, 0x80 + c]
  }

  /** What a jump at the start of `bytes` is, with its displacement and its length. */
  function DecodeJump(bytes: seq<Byte>): Option<(Jump, int, nat)>
  {
    if |bytes| >= 5 && bytes[0] == 0xE8 then Some((Call, Wrap(FromLE(bytes[1..5]), 0x8000_0000), 5))
    else if |bytes| >= 5 && bytes[0] == 0xE9 then Some((Jmp, Wrap(FromLE(bytes[1..5]), 0x8000_0000), 5))
    else if |bytes| >= 2 && bytes[0] == 0xEB then Some((Jmp, Wrap(FromLE(bytes[1..2]), 0x80), 2))
    else if |bytes| >= 2 && 0x70 <= bytes[0] < 0x80 then
      Some((Jcc(bytes[0] - 0x70), Wrap(FromLE(bytes[1..2]), 0x80), 2))
    else if |bytes| >= 6 && bytes[0] == 0x0F && 0x80 <= bytes[1] < 0x90 then
      Some((Jcc(bytes[1] - 0x80), Wrap(FromLE(bytes[2..6]), 0x8000_0000), 6))
    else None
  }

  /** With any field in place of its zeros, a jump decodes to itself and to the displacement that the field spells. */
  lemma JumpDecodes(j: Jump, short: bool, field: seq<Byte>)
    requires IsJump(j) && (short ==> !j.Call?) && |field| == (if short then 1 else 4)
    ensures DecodeJump(JumpHead(j, short) + field)
         == Some((j, Wrap(FromLE(field), if short then 0x80 else 0x8000_0000), |JumpHead(j, short)| + |field|))
  {
    hide FromLE, Wrap;
    var head := JumpHead(j, short);
    assert (head + field)[|head|..] == field;
    assert (head + field)[|head|..|head| + |field|] == field;
  }

  /** The opcode that `putop` puts for a jump, and its short form. */
  lemma JumpOpcode(j: Jump)
    requires IsJump(j)
    ensures OpBytes(None, JumpNumber(j), 0) == JumpHead(j, false)
    ensures Shortened(JumpHead(j, false)) == if j.Call? then None else Some(JumpHead(j, true))
  {
    if j.Jcc? {
      DivModUnique(0x0F80 + j.cond, 0x100, 0x0F, 0x80 + j.cond);
      DivModUnique(0x80 + j.cond, 0x10, 8, j.cond);
      assert [0x0F] + [0x80 + j.cond] == JumpHead(j, false);
      assert JumpHead(j, false)[..0] + [0x70 + j.cond] == [0x70 + j.cond];
    } else {
      assert JumpHead(j, false)[..0] + [0xEB] == [0xEB];
    }
  }

  /** The bytes before the 64 bit immediate of mov64. */
  function MovHead(reg: nat): seq<Byte>
    requires reg < 16
  {
    [0x48 + reg / 8, 0xB8 + reg % 8]
  }

  lemma MovOpcode(reg: nat)
    requires reg < 16
    ensures OpBytes(None, 0xB8 + reg % 8, if reg > 7 then 9 else 8) == MovHead(reg)
  {
  }

  /** The register and the immediate of mov64. */
  function DecodeMov64(bytes: seq<Byte>): Option<(nat, nat)>
  {
    if |bytes| >= 10 && 0x48 <= bytes[0] < 0x4A && 0xB8 <= bytes[1] < 0xC0 then
      Some((8 * (bytes[0] - 0x48) + (bytes[1] - 0xB8), FromLE(bytes[2..10])))
    else None
  }

  lemma MovDecodes(reg: nat, field: seq<Byte>)
    requires reg < 16 && |field| == 8
    ensures DecodeMov64(MovHead(reg) + field) == Some((reg, FromLE(field)))
  {
    hide FromLE;
    assert (MovHead(reg) + field)[2..10] == field;
  }
}
