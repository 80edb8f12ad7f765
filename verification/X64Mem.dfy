/**
  x64 memory operands (jita/x64/mem.py): `[base + index*scale + disp]` or `[rip + label + disp]`,
  normalized and validated on construction, and built up with `+` and `-`.
 */
module X64Mem {
  import opened Wrappers

  /** `Vector` stands for xmm and ymm, `Stack` for the x87 registers. */
  datatype Reg = Gp(code: nat, size: nat) | Vector(code: nat) | Stack(code: nat) | Rip

  datatype Sym = Local(name: string) | External(name: string)

  datatype MemExpr = MemExpr(
    base: Option<Reg>, index: Option<Reg>, scale: int, disp: int, sym: Option<Sym>, size: Option<nat>)

  datatype MemError =
    | BadScale | BadBase | BadIndex | MixedSizes | RipWithIndex | LabelWithoutRip | SlotDisplacement
    | AddressRange | DisplacementRange | TooManyRegisters | TwoLabels | SizedOperands

  datatype Made = Ok(mem: MemExpr) | Err(error: MemError)

  predicate Stackish(r: Reg)
  {
    r.Gp? && r.code == 4
  }

  predicate IsBase(r: Reg)
  {
    r.Rip? || (r.Gp? && (r.size == 4 || r.size == 8))
  }

  /** The swap of `__post_init__`: rsp can only be a base. */
  function Swapped(m: MemExpr): MemExpr
  {
    if m.index.Some? && Stackish(m.index.value) && m.scale == 1 then
      if m.base.None? then m.(base := m.index, index := None)
      else if m.base.value.Gp? && m.base.value.code != 4 then m.(base := m.index, index := m.base)
      else m
    else m
  }

  /** `MemExpr(...)`: what construction makes of the fields, or the error it raises. */
  function Make(m: MemExpr): Made
  {
    if m.scale != 1 && m.scale != 2 && m.scale != 4 && m.scale != 8 then Err(BadScale)
    else
      var n := Swapped(m);
      if n.base.Some? && !IsBase(n.base.value) then Err(BadBase)
      else if n.index.Some? && !(n.index.value.Gp? && (n.index.value.size == 4 || n.index.value.size == 8))
      then Err(BadIndex)
      else if n.index.Some? && n.index.value.code == 4 then Err(BadIndex)
      else if n.index.Some? && n.base.Some? && n.base.value.Gp? && n.base.value.size != n.index.value.size
      then Err(MixedSizes)
      else if n.base == Some(Rip) && n.index.Some? then Err(RipWithIndex)
      else if n.sym.Some? && n.base != Some(Rip) then Err(LabelWithoutRip)
      else if n.sym.Some? && n.sym.value.External? && n.disp != 0 then Err(SlotDisplacement)
      else if n.base.None? && n.index.None? && n.sym.None? then
        if -0x8000_0000_0000_0000 <= n.disp < 0x1_0000_0000_0000_0000 then Ok(n) else Err(AddressRange)
      else if -0x8000_0000 <= n.disp < 0x8000_0000 then Ok(n)
      else Err(DisplacementRange)
  }

  /** The operands that instructions can encode. */
  predicate Encodable(m: MemExpr)
  {
    && (m.scale == 1 || m.scale == 2 || m.scale == 4 || m.scale == 8)
    && (m.base.Some? ==> IsBase(m.base.value))
    && (m.index.Some? ==>
          && m.index.value.Gp? && (m.index.value.size == 4 || m.index.value.size == 8) && m.index.value.code != 4
          && (m.base.Some? ==> m.base.value.Gp? && m.base.value.size == m.index.value.size))
    && (m.sym.Some? ==> m.base == Some(Rip))
    && (m.sym.Some? && m.sym.value.External? ==> m.disp == 0)
    && (if m.base.None? && m.index.None? then -0x8000_0000_0000_0000 <= m.disp < 0x1_0000_0000_0000_0000
        else -0x8000_0000 <= m.disp < 0x8000_0000)
  }

  /**
    The address, for any register values and symbol addresses. `rip + label` is the label's own
    address, so a label counts from rip.
   */
  function Address(m: MemExpr, values: Reg -> int, syms: Sym -> int): int
  {
    (if m.base.Some? then values(m.base.value) else 0)
    + (if m.index.Some? then values(m.index.value) * m.scale else 0)
    + m.disp
    + (if m.sym.Some? then syms(m.sym.value) - values(Rip) else 0)
  }

  function Exchanged(m: MemExpr): MemExpr
  {
    m.(base := m.index, index := m.base)
  }

  /**
    What the fields are for: themselves if they are encodable, or with an unscaled rsp index as the
    base; anything else is refused.
   */
  function Constructed(m: MemExpr): Option<MemExpr>
  {
    if Encodable(m) then Some(m)
    else if m.index.Some? && Stackish(m.index.value) && m.scale == 1 && Encodable(Exchanged(m)) then Some(Exchanged(m))
    else None
  }

  /** Construction gives exactly that; it keeps address and size, and constructs the same again. */
  lemma MakeKeeps(m: MemExpr, values: Reg -> int, syms: Sym -> int)
    ensures Make(m).Ok? <==> Constructed(m).Some?
    ensures Make(m).Ok? ==>
      && Make(m).mem == Constructed(m).value && Encodable(Make(m).mem) && Make(Make(m).mem) == Make(m)
      && Address(Make(m).mem, values, syms) == Address(m, values, syms)
      && Make(m).mem.size == m.size
  {
  }

  // ----- Arithmetic -----

  /** `_add_reg` */
  function AddReg(m: MemExpr, r: Reg, scale: int): Made
  {
    if scale == 1 && m.base.None? then Make(m.(base := Some(r)))
    else if m.index.None? then Make(m.(index := Some(r), scale := scale))
    else Err(TooManyRegisters)
  }

  function AddSym(m: MemExpr, s: Sym): Made
  {
    if m.sym.Some? then Err(TwoLabels) else Make(m.(sym := Some(s)))
  }

  function AddInt(m: MemExpr, n: int): Made
  {
    Make(m.(disp := m.disp + n))
  }

  function SubInt(m: MemExpr, n: int): Made
  {
    Make(m.(disp := m.disp - n))
  }

  /** `a + b` for two memory expressions: b's parts are added one at a time. */
  function Add(a: MemExpr, b: MemExpr): Made
  {
    if a.size.Some? || b.size.Some? then Err(SizedOperands)
    else
      var withBase := if b.base.Some? then AddReg(a, b.base.value, 1) else Ok(a);
      if withBase.Err? then withBase
      else
        var withIndex := if b.index.Some? then AddReg(withBase.mem, b.index.value, b.scale) else withBase;
        if withIndex.Err? then withIndex
        else
          var withSym := if b.sym.Some? then AddSym(withIndex.mem, b.sym.value) else withIndex;
          if withSym.Err? then withSym else AddInt(withSym.mem, b.disp)
  }

  /** A register finds a free place: unscaled the base if it is free, else the index. */
  predicate TakesReg(m: MemExpr, r: Reg, scale: int, sum: MemExpr)
  {
    if scale == 1 && m.base.None? then Constructed(m.(base := Some(r))) == Some(sum)
    else m.index.None? && Constructed(m.(index := Some(r), scale := scale)) == Some(sum)
  }

  /** A symbol is the only one. */
  predicate TakesSym(m: MemExpr, s: Sym, sum: MemExpr)
  {
    m.sym.None? && Constructed(m.(sym := Some(s))) == Some(sum)
  }

  predicate TakesInt(m: MemExpr, n: int, sum: MemExpr)
  {
    Constructed(m.(disp := m.disp + n)) == Some(sum)
  }

  /** The sum exists exactly if the register finds a free place that can be encoded, and adds its scaled value. */
  lemma AddRegMeans(m: MemExpr, r: Reg, scale: int, values: Reg -> int, syms: Sym -> int)
    ensures AddReg(m, r, scale).Ok? <==> exists sum :: TakesReg(m, r, scale, sum)
    ensures AddReg(m, r, scale).Ok? ==>
      && var sum := AddReg(m, r, scale).mem;
      && TakesReg(m, r, scale, sum) && sum.size == m.size && Encodable(sum)
      && Address(sum, values, syms) == Address(m, values, syms) + values(r) * scale
  {
    hide Make, Encodable, Constructed;
    var n := if scale == 1 && m.base.None? then m.(base := Some(r)) else m.(index := Some(r), scale := scale);
    MakeKeeps(n, values, syms);
    if AddReg(m, r, scale).Ok? {
      assert TakesReg(m, r, scale, AddReg(m, r, scale).mem);
    }
  }

  /** The sum exists exactly if there is no other symbol and it can be encoded. */
  lemma AddSymMeans(m: MemExpr, s: Sym, values: Reg -> int, syms: Sym -> int)
    ensures AddSym(m, s).Ok? <==> exists sum :: TakesSym(m, s, sum)
    ensures AddSym(m, s).Ok? ==>
      && var sum := AddSym(m, s).mem;
      && TakesSym(m, s, sum) && sum.size == m.size && Encodable(sum)
      && Address(sum, values, syms) == Address(m, values, syms) + syms(s) - values(Rip)
  {
    hide Make, Encodable, Constructed;
    MakeKeeps(m.(sym := Some(s)), values, syms);
    if AddSym(m, s).Ok? {
      assert TakesSym(m, s, AddSym(m, s).mem);
    }
  }

  /** `+` and `-` of an integer exist exactly if the moved displacement can be encoded, and move the address by it. */
  lemma AddIntMeans(m: MemExpr, n: int, values: Reg -> int, syms: Sym -> int)
    ensures AddInt(m, n).Ok? <==> exists sum :: TakesInt(m, n, sum)
    ensures AddInt(m, n).Ok? ==>
      && var sum := AddInt(m, n).mem;
      && TakesInt(m, n, sum) && sum.size == m.size && Encodable(sum)
      && Address(sum, values, syms) == Address(m, values, syms) + n
    ensures SubInt(m, n) == AddInt(m, -n)
  {
    hide Make, Encodable, Constructed;
    MakeKeeps(m.(disp := m.disp + n), values, syms);
    if AddInt(m, n).Ok? {
      assert TakesInt(m, n, AddInt(m, n).mem);
    }
    assert m.disp + -n == m.disp - n;
  }

  /** A part that b does not have changes nothing. */
  predicate PartReg(m: MemExpr, r: Option<Reg>, scale: int, sum: MemExpr)
  {
    if r.Some? then TakesReg(m, r.value, scale, sum) else sum == m
  }

  predicate PartSym(m: MemExpr, s: Option<Sym>, sum: MemExpr)
  {
    if s.Some? then TakesSym(m, s.value, sum) else sum == m
  }

  /** The parts of b find their places in a one after the other. */
  ghost predicate TakesAll(a: MemExpr, b: MemExpr, sum: MemExpr)
  {
    exists u: MemExpr, v: MemExpr, w: MemExpr ::
      PartReg(a, b.base, 1, u) && PartReg(u, b.index, b.scale, v) && PartSym(v, b.sym, w) && TakesInt(w, b.disp, sum)
  }

  /**
    A sum exists exactly if neither side has a size and each part of b finds its place in a. Its
    address is the sum of the addresses, and it is encodable.
   */
  lemma AddMeans(a: MemExpr, b: MemExpr, values: Reg -> int, syms: Sym -> int)
    ensures Add(a, b).Ok? <==> a.size.None? && b.size.None? && exists sum :: TakesAll(a, b, sum)
    ensures Add(a, b).Ok? ==>
      && var sum := Add(a, b).mem;
      && TakesAll(a, b, sum) && sum.size.None? && Encodable(sum)
      && Address(sum, values, syms) == Address(a, values, syms) + Address(b, values, syms)
  {
    hide AddReg, AddSym, AddInt, Encodable, TakesReg, TakesSym, TakesInt;
    if Add(a, b).Ok? {
      SumTakes(a, b, values, syms);
    }
    forall sum | a.size.None? && b.size.None? && TakesAll(a, b, sum)
      ensures Add(a, b).Ok?
    {
      TakesSum(a, b, sum);
    }
  }

  lemma SumTakes(a: MemExpr, b: MemExpr, values: Reg -> int, syms: Sym -> int)
    requires Add(a, b).Ok?
    ensures var sum := Add(a, b).mem;
      && TakesAll(a, b, sum) && sum.size.None? && Encodable(sum)
      && Address(sum, values, syms) == Address(a, values, syms) + Address(b, values, syms)
  {
    hide AddReg, AddSym, AddInt, Encodable, TakesReg, TakesSym, TakesInt;
    var u := if b.base.Some? then AddReg(a, b.base.value, 1).mem else a;
    if b.base.Some? {
      AddRegMeans(a, b.base.value, 1, values, syms);
    }
    var v := if b.index.Some? then AddReg(u, b.index.value, b.scale).mem else u;
    if b.index.Some? {
      AddRegMeans(u, b.index.value, b.scale, values, syms);
    }
    var w := if b.sym.Some? then AddSym(v, b.sym.value).mem else v;
    if b.sym.Some? {
      AddSymMeans(v, b.sym.value, values, syms);
    }
    AddIntMeans(w, b.disp, values, syms);
    assert PartReg(a, b.base, 1, u) && PartReg(u, b.index, b.scale, v) && PartSym(v, b.sym, w);
  }

  lemma TakesSum(a: MemExpr, b: MemExpr, sum: MemExpr)
    requires a.size.None? && b.size.None? && TakesAll(a, b, sum)
    ensures Add(a, b).Ok?
  {
    hide AddReg, AddSym, AddInt, TakesReg, TakesSym, TakesInt;
    var u: MemExpr, v: MemExpr, w: MemExpr :|
      PartReg(a, b.base, 1, u) && PartReg(u, b.index, b.scale, v) && PartSym(v, b.sym, w) && TakesInt(w, b.disp, sum);
    if b.base.Some? {
      TakenReg(a, b.base.value, 1, u);
    }
    if b.index.Some? {
      TakenReg(u, b.index.value, b.scale, v);
    }
    if b.sym.Some? {
      TakenSym(v, b.sym.value, w);
    }
    AddIntMeans(w, b.disp, r => 0, s => 0);
  }

  lemma TakenReg(m: MemExpr, r: Reg, scale: int, sum: MemExpr)
    requires TakesReg(m, r, scale, sum)
    ensures AddReg(m, r, scale) == Ok(sum)
  {
    hide AddReg;
    AddRegMeans(m, r, scale, r => 0, s => 0);
  }

  lemma TakenSym(m: MemExpr, s: Sym, sum: MemExpr)
    requires TakesSym(m, s, sum)
    ensures AddSym(m, s) == Ok(sum)
  {
    hide AddSym;
    AddSymMeans(m, s, r => 0, s => 0);
  }
}
