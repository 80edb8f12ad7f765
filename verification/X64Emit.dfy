/**
  One x64 instruction with an operand that names a symbol, or none, from the encoder
  (jita/x64/encoder.py) through the assembler (jita/core/assembler.py) and the linker
  (jita/core/link.py) to the processor.
 */
module X64Emit {
  import Bits
  import opened Bytes
  import opened Patch
  import opened Linking
  import opened Assembling
  import opened Linker
  import opened X64Mem
  import Enc = X64Encode
  import opened Wrappers

  // ----- From the encoder to the assembler -----

  /** A symbol of the encoder stands for an operand: an extern for an extern, else a label or a string. */
  predicate StandsFor(sym: Sym, operand: Operand)
  {
    sym.External? <==> operand.Object? && operand.target.ToExtern?
  }

  function SymOf(operand: Operand): (sym: Sym)
    ensures StandsFor(sym, operand)
  {
    match operand
    case Named(name) => Local(name)
    case Object(ToExtern(e)) => External(e.name)
    case Object(ToLabel(_)) => Local("")
  }

  /** The patch kind of a field: only a rip-relative operand asks for the slot of its extern. */
  function KindOf(field: Enc.Field, sym: Sym): Kind
  {
    match field
    case RipField => if sym.External? then Slot(Rel(4)) else Rel(4)
    case BranchField(size) => Rel(size)
    case PointerField => Abs(8)
  }

  function OperandFixupOf(f: Enc.Fix, operand: Operand): OperandFixup
  {
    OperandFixup(f.off, KindOf(f.field, f.sym), operand, f.addend, f.field.RipField?)
  }

  function OperandFixupsOf(fixes: seq<Enc.Fix>, operand: Operand): seq<OperandFixup>
  {
    seq(|fixes|, k requires 0 <= k < |fixes| => OperandFixupOf(fixes[k], operand))
  }

  /** The same once names are resolved. */
  function FixupOf(f: Enc.Fix, target: Target): Fixup
  {
    Fixup(f.off, KindOf(f.field, f.sym), target, f.addend, f.field.RipField?)
  }

  function FixupsOf(fixes: seq<Enc.Fix>, target: Target): (fixups: seq<Fixup>)
    ensures |fixups| == |fixes|
  {
    seq(|fixes|, k requires 0 <= k < |fixes| => FixupOf(fixes[k], target))
  }

  /** The fixups of an instruction whose only symbol is that of one operand. */
  predicate Single(fixes: seq<Enc.Fix>, operand: Operand)
  {
    |fixes| <= 1 && forall f | f in fixes :: StandsFor(f.sym, operand)
  }

  function EncodingOf(out: seq<Byte>, fixes: seq<Enc.Fix>, operand: Operand): Encoding
  {
    Encoded(out, OperandFixupsOf(fixes, operand))
  }

  /** What the encoder leaves is what the assembler needs. */
  lemma FixesFlush(out: seq<Byte>, fixes: seq<Enc.Fix>, names: seq<string>, operand: Operand)
    requires Enc.FixesOk(out, fixes) && Single(fixes, operand) && (operand.Named? ==> operand.name in names)
    ensures EncodingOk(names, EncodingOf(out, fixes, operand))
  {
    if fixes != [] {
      FixFits(out, fixes[0], operand);
      assert OperandFixupsOf(fixes, operand) == [OperandFixupOf(fixes[0], operand)];
      hide OperandFixupOf, OperandFixupsOf;
    }
  }

  lemma FixFits(out: seq<Byte>, f: Enc.Fix, operand: Operand)
    requires Enc.FixOk(out, f) && StandsFor(f.sym, operand)
    ensures var g := OperandFixupOf(f, operand);
      && Recordable(g.kind) && (g.kind.Slot? ==> g.operand.Object? && g.operand.target.ToExtern?)
      && g.off + Size(g.kind) <= |out| && out[g.off..g.off + Size(g.kind)] == Zeros(Size(g.kind))
      && g.operand == operand
  {
  }

  /** An operand whose name, if it is one, has a label. */
  predicate Known(operand: Operand, symbols: map<string, Label>, named: map<string, Label>)
  {
    operand.Named? ==> operand.name in symbols || operand.name in named
  }

  lemma FixupsAgree(out: seq<Byte>, fixes: seq<Enc.Fix>, operand: Operand, symbols: map<string, Label>,
                    named: map<string, Label>)
    requires Known(operand, symbols, named)
    ensures EncodingOf(out, fixes, operand).Fixups(symbols, named) == FixupsOf(fixes, operand.Resolved(symbols, named))
  {
  }

  /** An instruction has come to lie after the bytes of s: it stands there exactly if no slot is in its way. */
  ghost predicate Placed(s: Section, now: Section, keys: set<string>, slots: map<string, Label>, code: seq<Byte>,
                         fixups: seq<Fixup>)
  {
    && |fixups| <= 1 && FixupsOk(code, fixups) && Requested(fixups, slots)
    && (Stands(now, |s.buf|, slots, code, fixups) <==> Intact(s.name, |s.buf|, keys, code, fixups))
  }

  lemma TidyAt(secs: seq<Section>, more: seq<Section>, cur: nat)
    requires ValidSections(secs) && Tidy(secs, more, cur) && cur < |secs|
    ensures cur < |more| && secs[cur].Valid() && Grown(secs[cur], more[cur])
  {
    hide Section.Valid, Grown;
  }

  lemma FlushedPlaced(s: Section, now: Section, keys: set<string>, slots: map<string, Label>, code: seq<Byte>,
                      fixups: seq<Fixup>)
    requires s.Valid() && Grown(s, now) && |fixups| <= 1 && FixupsOk(code, fixups) && Requested(fixups, slots)
    requires Placement(s, now, keys, slots, code, fixups)
    ensures Placed(s, now, keys, slots, code, fixups)
  {
    hide Section.Valid, Grown, FixupsOk, Requested, Intact, Whole, OwnSlots, SlotBefore, FieldEnd, FirstNew, Records,
      Stands;
    StandsExactly(s, now, keys, slots, code, fixups);
  }

  /** A rejected instruction leaves no trace, not even the forward references that its names made. */
  twostate predicate Untouched(asm: Assembler)
    reads asm
  {
    && asm.sections == old(asm.sections) && asm.labels == old(asm.labels)
    && asm.externSlots == old(asm.externSlots)
    && asm.named == old(asm.named) && asm.namedOrder == old(asm.namedOrder) && asm.NoneFresh()
  }

  /**
    An accepted instruction: its names have labels, nothing emitted before it is disturbed, and it
    stands where the current section ended exactly if no slot is in its way.
   */
  twostate predicate Delivered(asm: Assembler, names: seq<string>, operand: Operand, code: seq<Byte>,
                               fixes: seq<Enc.Fix>)
    reads asm
  {
    && asm.cur < |old(asm.sections)| && asm.cur < |asm.sections|
    && (forall n :: n in asm.named <==> n in old(asm.named) || (n in names && n !in asm.symbols))
    && (forall n | n in old(asm.named) :: n in asm.named && asm.named[n] == old(asm.named)[n])
    && Known(operand, asm.symbols, asm.named)
    && (forall n | n in old(asm.externSlots) :: n in asm.externSlots && asm.externSlots[n] == old(asm.externSlots)[n])
    && Tidy(old(asm.sections), asm.sections, asm.cur)
    && Placed(old(asm.sections)[asm.cur], asm.sections[asm.cur], old(asm.externSlots.Keys), asm.externSlots, code,
              FixupsOf(fixes, operand.Resolved(asm.symbols, asm.named)))
  }

  /**
    What `encode` does around an encoder: the names among the operands become labels, what is encoded
    is flushed, and an EncodeError forgets the names again.
   */
  method Deliver(asm: Assembler, enc: Option<Enc.Encoder>, names: seq<string>, operand: Operand) returns (ok: bool)
    requires asm.Valid() && (operand.Named? ==> operand.name in names)
    requires enc.Some? ==> enc.value.Valid() && Single(enc.value.fixups, operand)
    modifies asm
    ensures asm.Valid() && asm.cur == old(asm.cur) && asm.symbols == old(asm.symbols) && ok == enc.Some?
    ensures !ok ==> Untouched(asm)
    ensures ok ==> Delivered(asm, names, operand, enc.value.out, enc.value.fixups)
  {
    hide Enc.FixesOk, Tidy, FixupsOk, Requested, Placement, AfterFlush, SlotNames, Placed, ValidSections;
    hide Assembler.LabelsOk, Assembler.SymbolsOk, Assembler.NamedOk, Assembler.SlotsOk, Assembler.NoneFresh;
    if enc.None? {
      var refused := asm.Encode(names, Rejected);
      return false;
    }
    var code, fixes := enc.value.out, enc.value.fixups;
    FixesFlush(code, fixes, names, operand);
    hide EncodingOk;
    ok := asm.Encode(names, EncodingOf(code, fixes, operand));
    FixupsAgree(code, fixes, operand, asm.symbols, asm.named);
    TidyAt(old(asm.sections), asm.sections, asm.cur);
    hide Section.Valid, Grown, FixupOf;
    FlushedPlaced(old(asm.sections[asm.cur]), asm.sections[asm.cur], old(asm.externSlots.Keys), asm.externSlots, code,
                  FixupsOf(fixes, operand.Resolved(asm.symbols, asm.named)));
  }

  // ----- Instructions with a ModRM operand -----

  /**
    An instruction: an address size prefix, an opcode, a ModRM operand and immediates. The operand size
    `szov` of the opcode is that of the immediates, or none.
   */
  datatype Form = Form(
    addr32: bool, opcode: nat, szov: Option<char>, forced: bool, needrex: bool, hasHigh: bool, spare: Enc.Spare,
    sz: Option<char>, imms: seq<Enc.Imm>)
  {
    function Front(): seq<Byte>
    {
      if addr32 then [0x67] else []
    }

    function RexFor(t: Enc.Arg): nat
    {
      Enc.RexOf(szov, forced, needrex, t, Enc.Spared(spare))
    }

    /** The bytes before ModRM. */
    function Lead(t: Enc.Arg): seq<Byte>
    {
      Front() + Enc.OpBytes(szov, opcode, RexFor(t))
    }

    predicate Accepts(t: Enc.Arg)
    {
      (RexFor(t) == 0 || !hasHigh) && Enc.MrmSib(t, Enc.Spared(spare)).Some? && Enc.ImmsBytes(sz, imms).Some?
    }

    function Code(t: Enc.Arg): seq<Byte>
      requires Accepts(t)
    {
      Lead(t) + Enc.MrmSib(t, Enc.Spared(spare)).value.bytes + Enc.ImmsBytes(sz, imms).value
    }

    function Fixes(t: Enc.Arg): (fixes: seq<Enc.Fix>)
      requires Accepts(t)
      ensures |fixes| <= 1
    {
      match Enc.MrmSib(t, Enc.Spared(spare)).value.fix
      case None => []
      case Some(f) => [f.(off := |Lead(t)| + f.off)]
    }
  }

  /**
    `_encode_template` for a chosen template, without the matching of operands; None is the
    EncodeError.
   */
  method EncodeTemplate(form: Form, t: Enc.Arg) returns (enc: Option<Enc.Encoder>)
    requires Enc.IsArg(t) && Enc.IsSpare(form.spare)
    ensures enc.Some? <==> form.Accepts(t)
    ensures enc.Some? ==>
      fresh(enc.value) && enc.value.Valid() && enc.value.out == form.Code(t) && enc.value.fixups == form.Fixes(t)
  {
    hide Enc.OpBytes, Enc.MrmSib, Enc.RexOf, Enc.FixesOk, Enc.ImmsBytes;
    var e := new Enc.Encoder(form.hasHigh);
    if form.addr32 {
      e.PutB(0x67);
    }
    var ok := e.Operand(form.szov, form.opcode, form.spare, t, form.forced, form.needrex, None);
    if !ok {
      return None;
    }
    ok := e.PutImmediates(form.sz, form.imms);
    return if ok then Some(e) else None;
  }

  /**
    A form refuses an operand exactly if ah, ch, dh or bh come together with something that needs REX,
    if it is an absolute address that no sign extended 32 bit displacement is the same as, or if an
    immediate is out of its range.
   */
  lemma AcceptsExactly(form: Form, t: Enc.Arg)
    requires Enc.IsArg(t) && Enc.IsSpare(form.spare)
    ensures form.Accepts(t) <==>
      && !(form.hasHigh && Enc.NeedsRex(form.szov, form.forced, form.needrex, t, Enc.Spared(form.spare)))
      && !(t.MemArg? && !t.riprel && t.reg.None? && t.xreg.None?
           && forall d: int | -0x8000_0000 <= d < 0x8000_0000 :: !Bits.SameAddress(t.disp, d))
      && forall i | i in form.imms :: Enc.ImmBytes(form.sz, i).Some?
  {
    hide Enc.RexOf, Enc.MrmSib, Enc.ImmsBytes, Enc.ImmBytes, Bits.SameAddress, Enc.NeedsRex, Enc.IsArg;
    Enc.RexedIs(form.szov, form.forced, form.needrex, t, Enc.Spared(form.spare));
    Enc.RefusesExactly(t, Enc.Spared(form.spare));
    Enc.ImmsExactly(form.sz, form.imms);
  }

  lemma FormSingle(form: Form, t: Enc.Arg, operand: Operand)
    requires form.Accepts(t) && (t.MemArg? && t.sym.Some? ==> StandsFor(t.sym.value, operand))
    ensures Single(form.Fixes(t), operand)
  {
    hide Enc.ModRm, Enc.Dword, Form.Lead;
  }

  /** One instruction with a ModRM operand; `short` is for jumps only. */
  method Emit(asm: Assembler, form: Form, t: Enc.Arg, short: bool, names: seq<string>, operand: Operand)
    returns (ok: bool)
    requires asm.Valid() && Enc.IsArg(t) && Enc.IsSpare(form.spare) && (operand.Named? ==> operand.name in names)
    requires t.MemArg? && t.sym.Some? ==> StandsFor(t.sym.value, operand)
    modifies asm
    ensures asm.Valid() && asm.cur == old(asm.cur) && asm.symbols == old(asm.symbols)
    ensures ok == (form.Accepts(t) && !short)
    ensures !ok ==> Untouched(asm)
    ensures ok ==> Delivered(asm, names, operand, form.Code(t), form.Fixes(t))
  {
    hide Enc.FixesOk, Enc.IsArg, Form.Code, Form.Fixes, Form.Accepts, Single, StandsFor, Tidy, Placed, FixupsOf;
    hide Assembler.LabelsOk, Assembler.SymbolsOk, Assembler.NamedOk, Assembler.SlotsOk, ValidSections;
    var enc := EncodeTemplate(form, t);
    if enc.Some? {
      FormSingle(form, t, operand);
    }
    ok := Deliver(asm, if short then None else enc, names, operand);
  }

  // ----- Jumps to a label, and mov64 -----

  function BranchSize(short: bool): nat
  {
    if short then 1 else 4
  }

  function JumpCode(j: Enc.Jump, short: bool): seq<Byte>
    requires Enc.IsJump(j)
  {
    Enc.JumpHead(j, short) + Zeros(BranchSize(short))
  }

  function JumpFixes(j: Enc.Jump, short: bool, sym: Sym): seq<Enc.Fix>
    requires Enc.IsJump(j)
  {
    [Enc.Fix(|Enc.JumpHead(j, short)|, Enc.BranchField(BranchSize(short)), sym, 0)]
  }

  /** None is the EncodeError of a short call. */
  method EncodeJump(j: Enc.Jump, short: bool, sym: Sym) returns (enc: Option<Enc.Encoder>)
    requires Enc.IsJump(j)
    ensures enc.Some? <==> (short ==> !j.Call?)
    ensures enc.Some? ==>
      && fresh(enc.value) && enc.value.Valid()
      && enc.value.out == JumpCode(j, short) && enc.value.fixups == JumpFixes(j, short, sym)
  {
    hide Enc.OpBytes, Enc.JumpNumber, Enc.JumpHead, Enc.Shortened, Enc.FixesOk;
    Enc.JumpOpcode(j);
    var e := new Enc.Encoder(false);
    var put := e.PutOp(None, Enc.JumpNumber(j), 0, None);
    assert e.out == Enc.JumpHead(j, false);
    var ok := e.PutBranch(short, sym);
    return if ok then Some(e) else None;
  }

  /** A jump or call to a label, an extern or a name. */
  method EmitJump(asm: Assembler, j: Enc.Jump, short: bool, names: seq<string>, operand: Operand) returns (ok: bool)
    requires asm.Valid() && Enc.IsJump(j) && (operand.Named? ==> operand.name in names)
    modifies asm
    ensures asm.Valid() && asm.cur == old(asm.cur) && asm.symbols == old(asm.symbols)
    ensures ok == (short ==> !j.Call?)
    ensures !ok ==> Untouched(asm)
    ensures ok ==> Delivered(asm, names, operand, JumpCode(j, short), JumpFixes(j, short, SymOf(operand)))
  {
    hide Enc.FixesOk, StandsFor, JumpCode, Tidy, Placed, FixupsOf;
    hide Assembler.LabelsOk, Assembler.SymbolsOk, Assembler.NamedOk, Assembler.SlotsOk, ValidSections;
    var enc := EncodeJump(j, short, SymOf(operand));
    ok := Deliver(asm, enc, names, operand);
  }

  /** The source of mov64: a number, or what a symbol stands for. */
  datatype Source = Number(n: int) | Symbol(operand: Operand)

  predicate Movable(src: Source)
  {
    src.Number? ==> -0x8000_0000_0000_0000 <= src.n < 0x1_0000_0000_0000_0000
  }

  function MovCode(reg: nat, src: Source): seq<Byte>
    requires reg < 16
  {
    Enc.MovHead(reg) + if src.Number? then ToLE(src.n % 0x1_0000_0000_0000_0000, 8) else Zeros(8)
  }

  function MovFixes(src: Source): seq<Enc.Fix>
  {
    if src.Number? then [] else [Enc.Fix(2, Enc.PointerField, SymOf(src.operand), 0)]
  }

  /** `_encode_mov64` for a register of 64 bits; None is the EncodeError of a number that does not fit. */
  method EncodeMov64(reg: nat, src: Source) returns (enc: Option<Enc.Encoder>)
    requires reg < 16
    ensures enc.Some? <==> Movable(src)
    ensures enc.Some? ==>
      && fresh(enc.value) && enc.value.Valid()
      && enc.value.out == MovCode(reg, src) && enc.value.fixups == MovFixes(src)
  {
    hide Enc.OpBytes, Enc.MovHead, Enc.FixesOk, ToLE;
    Enc.MovOpcode(reg);
    var e := new Enc.Encoder(false);
    var put := e.PutOp(None, 0xB8 + reg % 8, if reg > 7 then 9 else 8, None);
    assert e.out == Enc.MovHead(reg);
    match src {
      case Number(n) =>
        if !(-0x8000_0000_0000_0000 <= n < 0x1_0000_0000_0000_0000) {
          return None;
        }
        e.PutBytes(ToLE(n % 0x1_0000_0000_0000_0000, 8));
      case Symbol(operand) =>
        assert |Enc.MovHead(reg)| == 2 by { MovHeadSize(reg); }
        e.PutField(Enc.PointerField, SymOf(operand), 0);
    }
    return Some(e);
  }

  lemma MovHeadSize(reg: nat)
    requires reg < 16
    ensures |Enc.MovHead(reg)| == 2
  {
  }

  /** mov64 of a register and a number, a label, an extern or a name. */
  method EmitMov64(asm: Assembler, reg: nat, src: Source, short: bool, names: seq<string>) returns (ok: bool)
    requires asm.Valid() && reg < 16
    requires src.Symbol? && src.operand.Named? ==> src.operand.name in names
    modifies asm
    ensures asm.Valid() && asm.cur == old(asm.cur) && asm.symbols == old(asm.symbols)
    ensures ok == (Movable(src) && !short)
    ensures !ok ==> Untouched(asm)
    ensures ok ==> Delivered(asm, names, OperandOf(src), MovCode(reg, src), MovFixes(src))
  {
    hide Enc.FixesOk, StandsFor, MovCode, Tidy, Placed, FixupsOf;
    hide Assembler.LabelsOk, Assembler.SymbolsOk, Assembler.NamedOk, Assembler.SlotsOk, ValidSections;
    var enc := EncodeMov64(reg, src);
    ok := Deliver(asm, if short then None else enc, names, OperandOf(src));
  }

  /** A number has no symbol, so any operand does for it. */
  function OperandOf(src: Source): Operand
  {
    if src.Symbol? then src.operand else Object(ToExtern(Extern("", None)))
  }

  // ----- The linked bytes -----

  ghost predicate Links(asm: Assembler, externs: map<string, int>, base: int, pageSize: nat)
    reads *
  {
    && asm.Valid() && 0 < pageSize
    && ValidSecs(Snapshot(asm, externs)) && Snapshot(asm, externs) != []
    && LinkAll(Snapshot(asm, externs), base, pageSize).Ok?
  }

  ghost function ImageOf(asm: Assembler, externs: map<string, int>, base: int, pageSize: nat): Image
    requires Links(asm, externs, base, pageSize)
    reads *
  {
    LinkAll(Snapshot(asm, externs), base, pageSize).value
  }

  /** The address of a label or extern in the image. */
  ghost function Goal(asm: Assembler, externs: map<string, int>, base: int, pageSize: nat, target: Target): Option<int>
    requires Links(asm, externs, base, pageSize)
    reads *
  {
    AddressAt(asm, externs, base, ImageOf(asm, externs, base, pageSize).offsets, target)
  }

  /** The image has the `size` bytes at `start` of section i. */
  ghost predicate InImageAt(asm: Assembler, img: Image, i: nat, start: nat, size: nat)
    reads asm
  {
    && i < |asm.sections| && asm.sections[i].name in img.offsets
    && img.offsets[asm.sections[i].name] + start + size <= |img.data|
  }

  ghost function At(asm: Assembler, img: Image, i: nat, start: nat): nat
    requires i < |asm.sections| && asm.sections[i].name in img.offsets
    reads asm
  {
    img.offsets[asm.sections[i].name] + start
  }

  /** Code with another field in place of the one at `off`. */
  function Filled(code: seq<Byte>, off: nat, field: seq<Byte>): (bytes: seq<Byte>)
    requires off + |field| <= |code|
    ensures |bytes| == |code|
  {
    code[..off] + field + code[off + |field|..]
  }

  /** The linked bytes of an instruction with one fixup: its code, with the patched field in it. */
  lemma LinkedPatched(asm: Assembler, externs: map<string, int>, base: int, pageSize: nat, i: nat, j: nat, start: nat,
                      slots: map<string, Label>, code: seq<Byte>, f: Fixup)
    requires Links(asm, externs, base, pageSize) && FixupOk(code, f)
    requires i < |asm.sections| && PatchedAt(asm.sections[i], start, slots, code, f, j)
    ensures var img := ImageOf(asm, externs, base, pageSize);
      && InImageAt(asm, img, i, start, |code|)
      && var at := At(asm, img, i, start);
      img.data[at..at + |code|] == Filled(code, f.off, img.data[at + f.off..at + f.off + Size(f.kind)])
  {
    hide LinkAll, SecsOf, ValidSecs, Size, Installed, Clean, Written, Sized;
    var size := Size(f.kind);
    FieldInside(code, f);
    LinkedCode(asm, externs, base, pageSize, i, start, code, {j});
    var img := LinkAll(Snapshot(asm, externs), base, pageSize).value;
    var at := img.offsets[asm.sections[i].name] + start;
    forall b: nat | b < |code| && (b < f.off || f.off + size <= b)
      ensures img.data[at + b] == code[b]
    {
      NotOverwritten(asm.sections[i], start, slots, code, f, j, b);
    }
    Spliced(img.data, at, code, f.off, size);
  }

  lemma FieldInside(code: seq<Byte>, f: Fixup)
    requires FixupOk(code, f)
    ensures f.off + Size(f.kind) <= |code| && code != [] && 0 < Size(f.kind)
  {
    SizePositive(f.kind);
    hide Size, Sized;
  }

  lemma NotOverwritten(s: Section, start: nat, slots: map<string, Label>, code: seq<Byte>, f: Fixup, j: nat, b: nat)
    requires PatchedAt(s, start, slots, code, f, j) && (b < f.off || f.off + Size(f.kind) <= b)
    ensures !Written(s, {j}, start + b)
  {
    hide Clean, Installed;
    assert Size(s.patches[j].kind) == Size(f.kind);
    hide Size;
  }

  lemma Spliced(data: seq<Byte>, at: nat, code: seq<Byte>, off: nat, size: nat)
    requires at + |code| <= |data| && off + size <= |code|
    requires forall b: nat | b < |code| && (b < off || off + size <= b) :: data[at + b] == code[b]
    ensures data[at..at + |code|] == Filled(code, off, data[at + off..at + off + size])
  {
    assert data[at..at + off] == code[..off];
    assert data[at + off + size..at + |code|] == code[off + size..];
    assert data[at..at + |code|]
      == data[at..at + off] + data[at + off..at + off + size] + data[at + off + size..at + |code|];
  }

  lemma LinkedPlain(asm: Assembler, externs: map<string, int>, base: int, pageSize: nat, i: nat, start: nat,
                    code: seq<Byte>)
    requires Links(asm, externs, base, pageSize) && code != []
    requires i < |asm.sections| && Installed(asm.sections[i], start, code, {})
    ensures var img := ImageOf(asm, externs, base, pageSize);
      && InImageAt(asm, img, i, start, |code|)
      && img.data[At(asm, img, i, start)..At(asm, img, i, start) + |code|] == code
  {
    hide LinkAll, SecsOf, ValidSecs, Installed, Written;
    LinkedCode(asm, externs, base, pageSize, i, start, code, {});
    var img := LinkAll(Snapshot(asm, externs), base, pageSize).value;
    var at := img.offsets[asm.sections[i].name] + start;
    assert img.data[at..at + |code|] == code by { NoneWritten(asm.sections[i]); }
  }

  lemma NoneWritten(s: Section)
    ensures forall b: nat :: !Written(s, {}, b)
  {
  }

  /** And that field refers to the target of the fixup, if that is a plain one. */
  lemma FieldReaches(asm: Assembler, externs: map<string, int>, base: int, pageSize: nat, i: nat, j: nat, start: nat,
                     slots: map<string, Label>, code: seq<Byte>, f: Fixup)
    requires Links(asm, externs, base, pageSize) && FixupOk(code, f) && (f.kind.Abs? || f.kind.Rel?) && !f.riprel
    requires i < |asm.sections| && PatchedAt(asm.sections[i], start, slots, code, f, j)
    ensures var img, goal := ImageOf(asm, externs, base, pageSize), Goal(asm, externs, base, pageSize, f.target);
      && InImageAt(asm, img, i, start, |code|) && img.base == base && goal.Some?
      && var at := At(asm, img, i, start);
      && var field := img.data[at + f.off..at + f.off + Size(f.kind)];
      && img.data[at..at + |code|] == Filled(code, f.off, field)
      && Refers(f.kind, field, base + at + f.off, goal.value + f.addend)
  {
    hide LinkAll, LayOut, SecsOf, Clean, Installed, Section.Valid, Refers, Filled, AddressAt;
    LinkedPatched(asm, externs, base, pageSize, i, j, start, slots, code, f);
    PatchLands(asm, externs, base, pageSize, i, j);
    LinkedTables(asm, externs, base, pageSize);
  }

  // ----- Jumps and mov64, run -----

  /** The image has the jump at `start` of section i, and it leads from the address after it to the goal. */
  ghost predicate JumpsAt(asm: Assembler, img: Image, i: nat, start: nat, jump: Enc.Jump, size: nat, goal: Option<int>)
    reads asm
  {
    && goal.Some? && InImageAt(asm, img, i, start, size)
    && var at := At(asm, img, i, start);
    Enc.DecodeJump(img.data[at..at + size]) == Some((jump, goal.value - (img.base + at + size), size))
  }

  /** Once linked, a jump decodes to itself, and leads from the address after it to its label or extern. */
  lemma JumpReaches(asm: Assembler, externs: map<string, int>, base: int, pageSize: nat, i: nat, start: nat,
                    slots: map<string, Label>, jump: Enc.Jump, short: bool, sym: Sym, target: Target)
    requires Links(asm, externs, base, pageSize) && Enc.IsJump(jump) && (short ==> !jump.Call?)
    requires i < |asm.sections|
      && Stands(asm.sections[i], start, slots, JumpCode(jump, short), FixupsOf(JumpFixes(jump, short, sym), target))
    ensures JumpsAt(asm, ImageOf(asm, externs, base, pageSize), i, start, jump, |JumpCode(jump, short)|,
                    Goal(asm, externs, base, pageSize, target))
  {
    hide Links, ImageOf, Goal, PatchedAt, Filled, Enc.DecodeJump, Enc.JumpHead, Refers, Size, Sized;
    var code, f := JumpCode(jump, short), FixupOf(JumpFixes(jump, short, sym)[0], target);
    JumpFixup(jump, short, sym, target);
    var j :| PatchedAt(asm.sections[i], start, slots, code, f, j);
    FieldReaches(asm, externs, base, pageSize, i, j, start, slots, code, f);
    var img := ImageOf(asm, externs, base, pageSize);
    var at := At(asm, img, i, start);
    JumpFilled(jump, short, img.data[at + f.off..at + f.off + BranchSize(short)], base + at + f.off,
               Goal(asm, externs, base, pageSize, target).value);
  }

  lemma JumpFixup(jump: Enc.Jump, short: bool, sym: Sym, target: Target)
    requires Enc.IsJump(jump)
    ensures FixupOk(JumpCode(jump, short), FixupOf(JumpFixes(jump, short, sym)[0], target))
    ensures Size(Rel(BranchSize(short))) == BranchSize(short)
    ensures |JumpCode(jump, short)| == |Enc.JumpHead(jump, short)| + BranchSize(short)
  {
    hide Enc.JumpHead;
    var head := Enc.JumpHead(jump, short);
    assert JumpCode(jump, short)[|head|..|head| + BranchSize(short)] == Zeros(BranchSize(short));
  }

  lemma JumpFilled(jump: Enc.Jump, short: bool, field: seq<Byte>, place: int, goal: int)
    requires Enc.IsJump(jump) && (short ==> !jump.Call?) && |field| == BranchSize(short)
    requires Refers(Rel(BranchSize(short)), field, place, goal)
    ensures var code, off := JumpCode(jump, short), |Enc.JumpHead(jump, short)|;
      Enc.DecodeJump(Filled(code, off, field)) == Some((jump, goal - (place - off + |code|), |code|))
  {
    hide FromLE, Enc.DecodeJump, Enc.JumpHead, Bits.Wrap, Half;
    Enc.JumpDecodes(jump, short, field);
    Halves();
    assert Filled(JumpCode(jump, short), |Enc.JumpHead(jump, short)|, field) == Enc.JumpHead(jump, short) + field;
  }

  lemma Halves()
    ensures Half(1) == 0x80 && Half(4) == 0x8000_0000 && Half(8) == 0x8000_0000_0000_0000
  {
    Bits.PowTable();
    hide Bits.Pow2;
  }

  /** The image has mov64 at `start` of section i, of this register and of an immediate that is the goal. */
  ghost predicate MovesAt(asm: Assembler, img: Image, i: nat, start: nat, reg: nat, goal: Option<int>)
    reads asm
  {
    && goal.Some? && InImageAt(asm, img, i, start, 10)
    && match Enc.DecodeMov64(img.data[At(asm, img, i, start)..At(asm, img, i, start) + 10])
       case None => false
       case Some((r, v)) => r == reg && Bits.SameAddress(v, goal.value)
  }

  /** Once linked, mov64 of a label or extern decodes to its register and to the address of that. */
  lemma MovReaches(asm: Assembler, externs: map<string, int>, base: int, pageSize: nat, i: nat, start: nat,
                   slots: map<string, Label>, reg: nat, operand: Operand, target: Target)
    requires Links(asm, externs, base, pageSize) && reg < 16
    requires i < |asm.sections|
      && Stands(asm.sections[i], start, slots, MovCode(reg, Symbol(operand)),
                FixupsOf(MovFixes(Symbol(operand)), target))
    ensures MovesAt(asm, ImageOf(asm, externs, base, pageSize), i, start, reg,
                    Goal(asm, externs, base, pageSize, target))
  {
    hide Links, ImageOf, Goal, PatchedAt, Filled, Enc.DecodeMov64, Enc.MovHead, Refers, Size, Sized, Bits.SameAddress;
    var code, f := MovCode(reg, Symbol(operand)), FixupOf(MovFixes(Symbol(operand))[0], target);
    MovFixup(reg, operand, target);
    var j :| PatchedAt(asm.sections[i], start, slots, code, f, j);
    FieldReaches(asm, externs, base, pageSize, i, j, start, slots, code, f);
    var img := ImageOf(asm, externs, base, pageSize);
    var at := At(asm, img, i, start);
    MovFilled(reg, operand, img.data[at + 2..at + 10], base + at + 2, Goal(asm, externs, base, pageSize, target).value);
  }

  lemma MovFixup(reg: nat, operand: Operand, target: Target)
    requires reg < 16
    ensures FixupOk(MovCode(reg, Symbol(operand)), FixupOf(MovFixes(Symbol(operand))[0], target))
    ensures |MovCode(reg, Symbol(operand))| == 10 && Size(Abs(8)) == 8
  {
    hide Enc.MovHead;
    MovHeadSize(reg);
    assert MovCode(reg, Symbol(operand))[2..10] == Zeros(8);
  }

  lemma MovFilled(reg: nat, operand: Operand, field: seq<Byte>, place: int, goal: int)
    requires reg < 16 && |field| == 8 && |MovCode(reg, Symbol(operand))| == 10 && Refers(Abs(8), field, place, goal)
    ensures Enc.DecodeMov64(Filled(MovCode(reg, Symbol(operand)), 2, field)) == Some((reg, FromLE(field)))
    ensures Bits.SameAddress(FromLE(field), goal)
  {
    hide FromLE, Enc.DecodeMov64, Enc.MovHead, Bits.SameAddress;
    MovHeadSize(reg);
    Enc.MovDecodes(reg, field);
    AbsReads(field, goal);
    assert Filled(MovCode(reg, Symbol(operand)), 2, field) == Enc.MovHead(reg) + field;
  }

  /** Once linked, mov64 of a number decodes to its register and to that number. */
  lemma MovKeeps(asm: Assembler, externs: map<string, int>, base: int, pageSize: nat, i: nat, start: nat,
                 slots: map<string, Label>, reg: nat, n: int)
    requires Links(asm, externs, base, pageSize) && reg < 16
    requires i < |asm.sections| && Stands(asm.sections[i], start, slots, MovCode(reg, Number(n)), [])
    ensures MovesAt(asm, ImageOf(asm, externs, base, pageSize), i, start, reg, Some(n))
  {
    hide LinkAll, LayOut, SecsOf, Installed, FromLE, ToLE, Enc.DecodeMov64, Enc.MovHead;
    MovHeadSize(reg);
    Bits.PowTable();
    FromToLE(n % 0x1_0000_0000_0000_0000, 8);
    Enc.MovDecodes(reg, ToLE(n % 0x1_0000_0000_0000_0000, 8));
    SameRemainder(n);
    LinkedPlain(asm, externs, base, pageSize, i, start, MovCode(reg, Number(n)));
  }

  lemma SameRemainder(n: int)
    ensures Bits.SameAddress(n % 0x1_0000_0000_0000_0000, n)
  {
    var q := n / 0x1_0000_0000_0000_0000;
    Bits.DivModUnique(n % 0x1_0000_0000_0000_0000 - n, 0x1_0000_0000_0000_0000, -q, 0);
  }

  // ----- Memory operands, run -----

  /** Any four bytes are those of the displacement they spell. */
  lemma DwordOf(field: seq<Byte>)
    requires |field| == 4
    ensures var d := Bits.Wrap(FromLE(field), 0x8000_0000);
      -0x8000_0000 <= d < 0x8000_0000 && Enc.Dword(d) == field
  {
    hide FromLE, ToLE;
    FromLEBound(field);
    Bits.PowTable();
    ToFromLE(field);
    WrapBack(FromLE(field));
  }

  lemma WrapBack(v: nat)
    requires v < 0x1_0000_0000
    ensures Bits.Wrap(v, 0x8000_0000) % 0x1_0000_0000 == v
  {
  }

  /** With any field in place of the zeros that the fixup covers, the instruction decodes to that displacement. */
  lemma FilledDecodes(form: Form, o: Enc.Opcode, t: Enc.Arg, field: seq<Byte>)
    requires Enc.IsOpcode(o, form.szov) && form.opcode == Enc.Number(o) && Enc.Spared(form.spare) < 16
    requires Enc.IsArg(t) && t.MemArg? && t.riprel && t.sym.Some? && form.Accepts(t) && |field| == 4
    ensures form.Fixes(t) == [Enc.Fix(|form.Lead(t)| + 1, Enc.RipField, t.sym.value, t.disp)]
    ensures |form.Code(t)| == |form.Lead(t)| + 5 + |Enc.ImmsBytes(form.sz, form.imms).value|
    ensures Filled(form.Code(t), |form.Lead(t)| + 1, field)[|form.Lead(t)| + 5..]
         == Enc.ImmsBytes(form.sz, form.imms).value
    ensures Enc.DecodeInsn(Filled(form.Code(t), |form.Lead(t)| + 1, field))
      == Some(Enc.Insn(form.Front() + (if form.szov == Some('w') then [0x66] else []) + o.prefixes,
                       Enc.NeedsRex(form.szov, form.forced, form.needrex, t, Enc.Spared(form.spare)), o.escape,
                       if form.szov == Some('b') then o.byte - 1 else o.byte, form.forced || form.szov == Some('q'),
                       Enc.Spared(form.spare), Enc.RipRelative(Bits.Wrap(FromLE(field), 0x8000_0000)),
                       if form.addr32 then 4 else 8, |form.Lead(t)| + 5))
  {
    hide Enc.OpBytes, Enc.ModRm, Enc.Dword, Enc.RexOf, Enc.DecodeInsn, Enc.Number, Enc.IsOpcode, FromLE, Bits.Wrap,
      Enc.ImmsBytes;
    var d := Bits.Wrap(FromLE(field), 0x8000_0000);
    DwordOf(field);
    var s := Enc.Spared(form.spare);
    var plain := t.(sym := None, disp := d);
    SameRex(form, t, plain);
    hide Enc.NeedsRex;
    assert Enc.MrmSib(plain, s).value.bytes == [Enc.ModRm(0, s, 5)] + field;
    var imms := Enc.ImmsBytes(form.sz, form.imms).value;
    Enc.InstructionDecodes(form.Front(), o, form.szov, form.forced, form.needrex, plain, s, imms);
    var off, code := |form.Lead(t)| + 1, form.Code(t);
    assert code[..off] == form.Lead(t) + [Enc.ModRm(0, s, 5)];
    assert code[off + 4..] == imms;
    assert code[..off] + field + code[off + 4..] == form.Lead(t) + ([Enc.ModRm(0, s, 5)] + field) + imms;
  }

  lemma SameRex(form: Form, t: Enc.Arg, plain: Enc.Arg)
    requires t.MemArg? && plain.MemArg? && t.reg == plain.reg && t.xreg == plain.xreg
    ensures form.RexFor(t) == form.RexFor(plain) && form.Lead(t) == form.Lead(plain)
    ensures var s := Enc.Spared(form.spare);
      Enc.NeedsRex(form.szov, form.forced, form.needrex, t, s)
      == Enc.NeedsRex(form.szov, form.forced, form.needrex, plain, s)
  {
  }

  /** The form is one of the table's opcodes, and the operand one that `MemExpr` constructs. */
  predicate TableForm(form: Form, o: Enc.Opcode, m: MemExpr)
  {
    && Enc.IsOpcode(o, form.szov) && form.opcode == Enc.Number(o) && Enc.IsSpare(form.spare)
    && Encodable(m) && form.addr32 == Enc.NeedsAddr32(m)
    && (m.base.Some? && m.base.value.Gp? ==> m.base.value.code < 16) && (m.index.Some? ==> m.index.value.code < 16)
  }

  /** The opcode, register and size of the form, and its immediates after the operand. */
  predicate IsForm(bytes: seq<Byte>, insn: Enc.Insn, form: Form, o: Enc.Opcode)
  {
    && insn.length <= |bytes| && Some(bytes[insn.length..]) == Enc.ImmsBytes(form.sz, form.imms)
    && insn.reg == Enc.Spared(form.spare) && insn.escape == o.escape
    && insn.opcode == (if form.szov == Some('b') then o.byte - 1 else o.byte)
    && insn.wide == (form.forced || form.szov == Some('q'))
    && (form.needrex ==> insn.rexed) && (form.hasHigh ==> !insn.rexed)
  }

  /** The byte registers of an instruction are the ones that the decoded numbers name. */
  lemma BytesNamed(regs: seq<Enc.ByteReg>, bytes: seq<Byte>, insn: Enc.Insn, form: Form, o: Enc.Opcode)
    requires (forall r | r in regs :: Enc.IsByteReg(r)) && Enc.RexWishes(regs).Some?
    requires form.needrex == (Enc.RexWishes(regs).value == Some(true)) && form.hasHigh == Enc.AnyHigh(regs)
    requires IsForm(bytes, insn, form, o)
    ensures Enc.NamesAll(regs, insn.rexed)
  {
    hide Enc.RexWishes;
    Enc.WishesMean(regs);
  }

  /** The bytes decode to the form's instruction, with a rip-relative operand at `address` if rip is `rip` after it. */
  predicate RunsAs(bytes: seq<Byte>, form: Form, o: Enc.Opcode, rip: int, address: int)
  {
    && Enc.DecodeInsn(bytes).Some?
    && var insn := Enc.DecodeInsn(bytes).value;
    && IsForm(bytes, insn, form, o) && insn.addressSize == 8
    && insn.rm.RipRelative? && rip + insn.rm.disp == address
  }

  /** The bytes decode to the form's instruction, with a memory operand at `address` for these registers. */
  predicate Addresses(bytes: seq<Byte>, form: Form, o: Enc.Opcode, values: Reg -> int, address: int)
  {
    && Enc.DecodeInsn(bytes).Some?
    && var insn := Enc.DecodeInsn(bytes).value;
    && IsForm(bytes, insn, form, o)
    && insn.rm.Memory? && Bits.SameAddress(Enc.Effective(insn.rm, insn.addressSize, values), address)
  }

  /**
    The image has the instruction at `start` of section i; once rip is the address after it, and the
    operand's symbol, if it has one, is at the goal, its operand is at the expression's address.
   */
  ghost predicate RunsAt(asm: Assembler, img: Image, i: nat, start: nat, form: Form, o: Enc.Opcode, m: MemExpr,
                         values: Reg -> int, syms: Sym -> int, goal: Option<int>)
    requires Encodable(m) && form.Accepts(Enc.ClassifyMem(m))
    reads asm
  {
    var size := |form.Code(Enc.ClassifyMem(m))|;
    && goal.Some? && InImageAt(asm, img, i, start, size)
    && var at := At(asm, img, i, start);
    values(Rip) == img.base + at + size && (m.sym.Some? ==> syms(m.sym.value) == goal.value) ==>
      if m.base == Some(Rip) then
        RunsAs(img.data[at..at + size], form, o, values(Rip), Address(m, values, syms))
      else
        Addresses(img.data[at..at + size], form, o, values, Address(m, values, syms))
  }

  /** What the symbol of an operand is for the program: a label, or the slot that holds an extern's address. */
  function Meant(target: Target, slots: map<string, Label>): Target
  {
    if target.ToExtern? && target.extern.name in slots then ToLabel(slots[target.extern.name]) else target
  }

  /**
    From the memory expression to the running program: an instruction that names a symbol, once
    linked, decodes to the opcode and register asked for, and to a displacement that leads from the
    address after the instruction, immediate included, to what the expression says.
   */
  lemma InstructionReaches(asm: Assembler, externs: map<string, int>, base: int, pageSize: nat, i: nat, start: nat,
                           slots: map<string, Label>, form: Form, o: Enc.Opcode, m: MemExpr, target: Target,
                           values: Reg -> int, syms: Sym -> int)
    requires Links(asm, externs, base, pageSize) && TableForm(form, o, m) && form.Accepts(Enc.ClassifyMem(m))
    requires m.sym.Some? && (m.sym.value.External? <==> target.ToExtern?) && i < |asm.sections|
    requires Stands(asm.sections[i], start, slots, form.Code(Enc.ClassifyMem(m)),
                    FixupsOf(form.Fixes(Enc.ClassifyMem(m)), target))
    ensures RunsAt(asm, ImageOf(asm, externs, base, pageSize), i, start, form, o, m, values, syms,
                   Goal(asm, externs, base, pageSize, Meant(target, slots)))
  {
    hide LinkAll, LayOut, SecsOf, Installed, Clean, FromLE, Bits.Wrap, AddressAt, RunsAs, Addresses, Address;
    hide Enc.IsOpcode, Enc.Number, Encodable, Enc.NeedsAddr32, Enc.ClassifyMem, Enc.IsArg, Form.RexFor, Form.Code,
      Form.Lead, Form.Accepts, Section.Valid, Filled;
    var t := Enc.ClassifyMem(m);
    RipFixupOf(form, o, m, target);
    var f, code := FixupOf(form.Fixes(t)[0], target), form.Code(t);
    var j :| PatchedAt(asm.sections[i], start, slots, code, f, j);
    RipOperandLinked(asm, externs, base, pageSize, i, j, f, slots, start, |code|);
    LinkedPatched(asm, externs, base, pageSize, i, j, start, slots, code, f);
    LinkedTables(asm, externs, base, pageSize);
    var img := ImageOf(asm, externs, base, pageSize);
    var at := At(asm, img, i, start);
    if values(Rip) == base + at + |code|
      && syms(m.sym.value) == Goal(asm, externs, base, pageSize, Meant(target, slots)).value {
      FilledRuns(form, o, m, img.data[at + f.off..at + f.off + 4], values, syms);
    }
  }

  lemma RexedForm(form: Form, t: Enc.Arg)
    requires form.Accepts(t)
    ensures var rexed := Enc.NeedsRex(form.szov, form.forced, form.needrex, t, Enc.Spared(form.spare));
      (form.needrex ==> rexed) && (form.hasHigh ==> !rexed)
  {
    hide Enc.RexOf, Enc.MrmSib, Enc.ImmsBytes;
    Enc.RexedIs(form.szov, form.forced, form.needrex, t, Enc.Spared(form.spare));
  }

  lemma FilledRuns(form: Form, o: Enc.Opcode, m: MemExpr, field: seq<Byte>, values: Reg -> int, syms: Sym -> int)
    requires TableForm(form, o, m) && m.sym.Some? && form.Accepts(Enc.ClassifyMem(m)) && |field| == 4
    requires values(Rip) + Bits.Wrap(FromLE(field), 0x8000_0000) == syms(m.sym.value) + m.disp
    ensures var off, code := |form.Lead(Enc.ClassifyMem(m))| + 1, form.Code(Enc.ClassifyMem(m));
      off + 4 <= |code| && RunsAs(Filled(code, off, field), form, o, values(Rip), Address(m, values, syms))
  {
    hide Enc.DecodeInsn, Enc.OpBytes, Enc.Number, Enc.IsOpcode, Form.RexFor, FromLE, Bits.Wrap, Form.Code, Form.Lead,
      Filled, Enc.ImmsBytes;
    FilledDecodes(form, o, Enc.ClassifyMem(m), field);
    RexedForm(form, Enc.ClassifyMem(m));
  }

  /** The fixup of an operand that names a symbol. */
  lemma RipFixupOf(form: Form, o: Enc.Opcode, m: MemExpr, target: Target)
    requires TableForm(form, o, m) && m.sym.Some? && form.Accepts(Enc.ClassifyMem(m))
    requires m.sym.value.External? <==> target.ToExtern?
    ensures m.base == Some(Rip)
    ensures var t := Enc.ClassifyMem(m);
      && |form.Fixes(t)| == 1
      && var f := FixupOf(form.Fixes(t)[0], target);
      && f == Fixup(|form.Lead(t)| + 1, if target.ToExtern? then Slot(Rel(4)) else Rel(4), target, m.disp, true)
      && FixupOk(form.Code(t), f) && Size(f.kind) == 4
  {
    hide Form.Lead, Form.RexFor, Enc.ModRm, Enc.IsOpcode, Enc.Number;
    var t := Enc.ClassifyMem(m);
    var off := |form.Lead(t)| + 1;
    assert form.Code(t)[off..off + 4] == [0, 0, 0, 0] == Zeros(4);
  }

  /**
    The linked bytes of an instruction whose operand names no symbol are its code, so its operand has
    the expression's address: it counts from registers, from nothing, or from rip.
   */
  lemma PlainReaches(asm: Assembler, externs: map<string, int>, base: int, pageSize: nat, i: nat, start: nat,
                     slots: map<string, Label>, form: Form, o: Enc.Opcode, m: MemExpr, values: Reg -> int,
                     syms: Sym -> int)
    requires Links(asm, externs, base, pageSize) && TableForm(form, o, m) && form.Accepts(Enc.ClassifyMem(m))
    requires m.sym.None? && i < |asm.sections|
    requires Stands(asm.sections[i], start, slots, form.Code(Enc.ClassifyMem(m)), [])
    ensures form.Fixes(Enc.ClassifyMem(m)) == []
    ensures RunsAt(asm, ImageOf(asm, externs, base, pageSize), i, start, form, o, m, values, syms, Some(0))
  {
    hide LinkAll, LayOut, SecsOf, Installed, Section.Valid, Written, Form.RexFor, Form.Lead;
    hide Form.Code, Form.Accepts, Enc.ClassifyMem, Address, Addresses, RunsAs, Enc.IsOpcode, Enc.Number, Encodable,
      Enc.NeedsAddr32;
    PlainCode(form, m);
    LinkedPlain(asm, externs, base, pageSize, i, start, form.Code(Enc.ClassifyMem(m)));
    LinkedTables(asm, externs, base, pageSize);
    CodeRuns(form, o, m, values, syms);
  }

  lemma PlainCode(form: Form, m: MemExpr)
    requires Encodable(m) && m.sym.None? && form.Accepts(Enc.ClassifyMem(m))
    ensures form.Fixes(Enc.ClassifyMem(m)) == [] && form.Code(Enc.ClassifyMem(m)) != []
  {
    hide Enc.ModRm, Enc.Dword, Form.Lead;
  }

  lemma CodeRuns(form: Form, o: Enc.Opcode, m: MemExpr, values: Reg -> int, syms: Sym -> int)
    requires TableForm(form, o, m) && m.sym.None? && form.Accepts(Enc.ClassifyMem(m))
    ensures m.base == Some(Rip) ==>
      RunsAs(form.Code(Enc.ClassifyMem(m)), form, o, values(Rip), Address(m, values, syms))
    ensures m.base != Some(Rip) ==>
      Addresses(form.Code(Enc.ClassifyMem(m)), form, o, values, Address(m, values, syms))
  {
    hide Enc.DecodeInsn, Enc.OpBytes, Enc.Number, Enc.IsOpcode, Enc.RexOf, Enc.MrmSib, Enc.Effective;
    Enc.InstructionMeans(m, o, form.szov, form.forced, form.needrex, Enc.Spared(form.spare),
                         Enc.ImmsBytes(form.sz, form.imms).value, values, syms);
    RexedForm(form, Enc.ClassifyMem(m));
  }

  // ----- Through a slot -----

  /** The eight bytes of the image at an address are a pointer to the goal. */
  predicate PointsTo(img: Image, address: int, goal: Option<int>)
  {
    && goal.Some? && 0 <= address - img.base && address - img.base + 8 <= |img.data|
    && Bits.SameAddress(FromLE(img.data[address - img.base..address - img.base + 8]), goal.value)
  }

  /**
    `[rip + f]` of an extern f: the operand of the linked instruction is the slot of f, and the
    pointer there is the address that f stands for.
   */
  lemma ReadsExtern(asm: Assembler, externs: map<string, int>, base: int, pageSize: nat, i: nat, start: nat,
                    slots: map<string, Label>, form: Form, o: Enc.Opcode, m: MemExpr, f: Extern, e: Extern, k: nat,
                    values: Reg -> int, syms: Sym -> int)
    requires Links(asm, externs, base, pageSize) && TableForm(form, o, m) && form.Accepts(Enc.ClassifyMem(m))
    requires m.sym.Some? && m.sym.value.External? && i < |asm.sections|
    requires Stands(asm.sections[i], start, slots, form.Code(Enc.ClassifyMem(m)),
                    FixupsOf(form.Fixes(Enc.ClassifyMem(m)), ToExtern(f)))
    requires SlotPatch(asm, f.name, e, k) && Clean(asm.sections[asm.externSlots[f.name].section], k)
    requires f.name in slots && slots[f.name] == asm.externSlots[f.name]
    ensures var img := ImageOf(asm, externs, base, pageSize);
      var slot := Goal(asm, externs, base, pageSize, ToLabel(slots[f.name]));
      && RunsAt(asm, img, i, start, form, o, m, values, syms, slot)
      && slot.Some? && PointsTo(img, slot.value, Goal(asm, externs, base, pageSize, ToExtern(e)))
    ensures syms(m.sym.value) == Goal(asm, externs, base, pageSize, ToLabel(slots[f.name])).value ==>
      Address(m, values, syms) == Goal(asm, externs, base, pageSize, ToLabel(slots[f.name])).value
  {
    hide LinkAll, LayOut, SecsOf, Clean, FromLE, RunsAt, Stands, Form.Code, Form.Accepts, Form.Fixes, Enc.ClassifyMem;
    InstructionReaches(asm, externs, base, pageSize, i, start, slots, form, o, m, ToExtern(f), values, syms);
    SlotPointer(asm, externs, base, pageSize, f.name, e, k);
    LinkedTables(asm, externs, base, pageSize);
  }

  const CALL: Form := Form(false, 0xFF, None, false, false, false, Enc.Digit(2), Some('q'), [])

  /** `call qword[rip + f]` is such an instruction, so it goes to f. */
  lemma CallForm(name: string)
    ensures var m := MemExpr(Some(Rip), None, 1, 0, Some(External(name)), Some(8));
      && TableForm(CALL, Enc.Opcode([], Enc.NoEscape, 0xFF), m) && CALL.Accepts(Enc.ClassifyMem(m))
      && CALL.Code(Enc.ClassifyMem(m)) == [0xFF, 0x15, 0, 0, 0, 0]
  {
    hide Enc.ModRm;
    assert Enc.ModRm(0, 2, 5) == 0x15;
  }
}
