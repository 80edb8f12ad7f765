/**
  The Assembler of jita/core/assembler.py: sections, labels, patches, and the name tables that
  forward references go through. A section is a value in its assembler's table; labels are objects.
 */
module Assembling {
  import Bits
  import opened Bytes
  import opened Patch
  import opened Linking
  import opened Wrappers

  datatype Extern = Extern(name: string, address: Option<int>)

  datatype Target = ToLabel(lbl: Label) | ToExtern(extern: Extern)

  datatype PatchRecord = PatchRecord(offset: nat, kind: Kind, target: Target, addend: int)

  /** `insns`: some encoder has recorded an instruction in the section. */
  datatype Section = Section(
    name: string, buf: seq<Byte>, patches: seq<PatchRecord>, align: nat, writable: bool, insns: bool)
  {
    predicate Holds(p: PatchRecord)
    {
      Sized(p.kind) && !p.kind.Slot? && p.offset + Size(p.kind) <= |buf|
    }

    predicate Valid()
    {
      PowerOfTwo(align) && 8 <= align && forall p | p in patches :: Holds(p)
    }
  }

  class Label {
    const name: Option<string>
    const owner: Assembler?
    // the assembler and the index of the section where the label is bound
    var home: Assembler?
    var section: nat
    var offset: nat
    // its place in the order of binding
    var turn: nat

    constructor (name: Option<string>, owner: Assembler?)
      ensures this.name == name && this.owner == owner && home == null
    {
      this.name := name;
      this.owner := owner;
      home := null;
    }
  }

  // ----- Section tables -----

  predicate ValidSections(secs: seq<Section>)
  {
    && (forall i, j | 0 <= i < j < |secs| :: secs[i].name != secs[j].name)
    && (forall i | 0 <= i < |secs| :: secs[i].Valid())
  }

  /** Sections stay where they are; their bytes, patches and alignments only grow. */
  predicate Extends(secs: seq<Section>, more: seq<Section>)
  {
    |secs| <= |more|
    && forall i | 0 <= i < |secs| ::
         secs[i].name == more[i].name && secs[i].buf <= more[i].buf && secs[i].patches <= more[i].patches
         && secs[i].align <= more[i].align
  }

  function Find(secs: seq<Section>, name: string): (r: Option<nat>)
    ensures r.Some? ==> r.value < |secs| && secs[r.value].name == name
    ensures r.None? ==> forall i | 0 <= i < |secs| :: secs[i].name != name
  {
    if secs == [] then None
    else if secs[|secs| - 1].name == name then Some(|secs| - 1)
    else Find(secs[..|secs| - 1], name)
  }

  function NewSection(name: string, align: nat): Section
  {
    Section(name, [], [], align, false, false)
  }

  /** The table after `_get_section`. */
  function WithSection(secs: seq<Section>, name: string, align: nat): seq<Section>
  {
    if Find(secs, name).Some? then secs else secs + [NewSection(name, align)]
  }

  function IndexOf(secs: seq<Section>, name: string): nat
  {
    match Find(secs, name) case Some(i) => i case None => |secs|
  }

  function AppendBytes(s: Section, data: seq<Byte>): Section
  {
    s.(buf := s.buf + data)
  }

  function AppendPatch(s: Section, p: PatchRecord): Section
  {
    s.(patches := s.patches + [p])
  }

  /** The zero bytes up to the next multiple of 8. */
  function SlotPad(size: nat): seq<Byte>
  {
    Zeros((0 - size) % 8)
  }

  /** A section with one more pointer slot at its end. */
  function WithSlot(s: Section, extern: Extern): Section
  {
    var padded := AppendBytes(s, SlotPad(|s.buf|));
    WithField(padded, Abs(8), ToExtern(extern), 0)
  }

  /** The table after the first request for a slot of `extern`. */
  function SlotSections(secs: seq<Section>, extern: Extern): seq<Section>
  {
    var more := WithSection(secs, "externs", 8);
    var i := IndexOf(secs, "externs");
    more[i := WithSlot(more[i], extern)]
  }

  lemma PowersUsed()
    ensures PowerOfTwo(8) && PowerOfTwo(16)
  {
    assert PowerOfTwo(1) && PowerOfTwo(2) && PowerOfTwo(4) && PowerOfTwo(8);
  }

  lemma WithSectionExtends(secs: seq<Section>, name: string, align: nat)
    requires ValidSections(secs) && PowerOfTwo(align) && 8 <= align
    ensures ValidSections(WithSection(secs, name, align)) && Extends(secs, WithSection(secs, name, align))
    ensures IndexOf(secs, name) < |WithSection(secs, name, align)|
    ensures WithSection(secs, name, align)[IndexOf(secs, name)].name == name
  {
    hide PowerOfTwo, Find;
    var more := WithSection(secs, name, align);
    assert Find(secs, name).None? ==> forall i | 0 <= i < |secs| :: secs[i].name != name;
    forall i | 0 <= i < |more|
      ensures more[i].Valid()
    {
      if i < |secs| {
        assert secs[i].Valid();
      }
    }
  }

  lemma ValidAt(secs: seq<Section>, i: nat)
    requires ValidSections(secs) && i < |secs|
    ensures secs[i].Valid()
  {
  }

  lemma UpdateExtends(secs: seq<Section>, i: nat, s: Section)
    requires ValidSections(secs) && i < |secs|
    requires s.Valid() && s.name == secs[i].name && secs[i].buf <= s.buf && secs[i].patches <= s.patches
    requires secs[i].align <= s.align
    ensures ValidSections(secs[i := s]) && Extends(secs, secs[i := s])
  {
  }

  lemma GrownSection(s: Section, data: seq<Byte>)
    requires s.Valid()
    ensures AppendBytes(s, data).Valid()
  {
    forall p | p in s.patches
      ensures AppendBytes(s, data).Holds(p)
    {
      assert s.Holds(p);
    }
  }

  lemma SlotSectionValid(s: Section, extern: Extern)
    requires s.Valid()
    ensures WithSlot(s, extern).Valid()
    ensures (|s.buf| + |SlotPad(|s.buf|)|) % 8 == 0
    ensures s.buf <= WithSlot(s, extern).buf && s.patches <= WithSlot(s, extern).patches
  {
    GrownSection(s, SlotPad(|s.buf|));
    GrownSection(AppendBytes(s, SlotPad(|s.buf|)), Zeros(8));
  }

  lemma SlotSectionsExtends(secs: seq<Section>, extern: Extern)
    requires ValidSections(secs)
    ensures ValidSections(SlotSections(secs, extern)) && Extends(secs, SlotSections(secs, extern))
    ensures IndexOf(secs, "externs") < |SlotSections(secs, extern)|
  {
    PowersUsed();
    WithSectionExtends(secs, "externs", 8);
    var more, i := WithSection(secs, "externs", 8), IndexOf(secs, "externs");
    assert more[i].Valid();
    SlotSectionValid(more[i], extern);
    UpdateExtends(more, i, WithSlot(more[i], extern));
  }

  // ----- Clean patches -----

  predicate Overlap(p: PatchRecord, q: PatchRecord)
  {
    p.offset < q.offset + Size(q.kind) && q.offset < p.offset + Size(p.kind)
  }

  /** What is emitted where the patch will write is the template that its kind needs. */
  predicate Over(s: Section, p: PatchRecord)
  {
    s.Holds(p) && Template(p.kind, s.buf[p.offset..p.offset + Size(p.kind)])
  }

  /** A patch that shares no byte with another, over an instruction whose field is zero. */
  ghost predicate Clean(s: Section, j: nat)
    requires j < |s.patches|
  {
    Over(s, s.patches[j]) && forall k | 0 <= k < |s.patches| && k != j :: !Overlap(s.patches[j], s.patches[k])
  }

  /** More was emitted after the bytes of `a`: each new patch lies there, and is clean. */
  ghost predicate Grown(a: Section, b: Section)
  {
    && a.name == b.name && a.buf <= b.buf && a.patches <= b.patches
    && forall j | |a.patches| <= j < |b.patches| :: |a.buf| <= b.patches[j].offset && Clean(b, j)
  }

  ghost predicate GrownAll(secs: seq<Section>, more: seq<Section>)
  {
    && |secs| <= |more|
    && (forall i | 0 <= i < |secs| :: Grown(secs[i], more[i]))
    && (forall i, j | |secs| <= i < |more| && 0 <= j < |more[i].patches| :: Clean(more[i], j))
  }

  lemma OverStays(a: Section, b: Section, p: PatchRecord)
    requires Over(a, p) && a.buf <= b.buf
    ensures Over(b, p)
  {
    hide Size, Sized, Template;
    var end := p.offset + Size(p.kind);
    assert a.buf[p.offset..end] == b.buf[p.offset..end];
  }

  /** What is emitted later does not touch a clean patch. */
  lemma CleanStays(a: Section, b: Section, j: nat)
    requires a.Valid() && Grown(a, b) && j < |a.patches| && Clean(a, j)
    ensures Clean(b, j)
  {
    hide Size, Sized, Over, PowerOfTwo;
    OverStays(a, b, a.patches[j]);
    assert a.Holds(a.patches[j]);
    forall k | 0 <= k < |b.patches| && k != j
      ensures !Overlap(b.patches[j], b.patches[k])
    {
      if k < |a.patches| {
        assert !Overlap(a.patches[j], a.patches[k]);
      }
    }
  }

  lemma GrownChain(a: Section, b: Section, c: Section)
    requires b.Valid() && Grown(a, b) && Grown(b, c)
    ensures Grown(a, c)
  {
    hide Clean, Section.Valid;
    forall j | |a.patches| <= j < |c.patches|
      ensures |a.buf| <= c.patches[j].offset && Clean(c, j)
    {
      if j < |b.patches| {
        assert b.patches[j] == c.patches[j];
        CleanStays(b, c, j);
      }
    }
  }

  lemma GrownAllChain(x: seq<Section>, y: seq<Section>, z: seq<Section>)
    requires ValidSections(y) && GrownAll(x, y) && GrownAll(y, z)
    ensures GrownAll(x, z)
  {
    hide Clean, Section.Valid, Grown;
    forall i | 0 <= i < |x|
      ensures Grown(x[i], z[i])
    {
      GrownChain(x[i], y[i], z[i]);
    }
    forall i, j | |x| <= i < |z| && 0 <= j < |z[i].patches|
      ensures Clean(z[i], j)
    {
      if i < |y| {
        NewStaysClean(y[i], z[i], j);
      }
    }
  }

  lemma NewStaysClean(a: Section, b: Section, j: nat)
    requires a.Valid() && Grown(a, b) && j < |b.patches| && forall k | 0 <= k < |a.patches| :: Clean(a, k)
    ensures Clean(b, j)
  {
    hide Clean, Section.Valid;
    if j < |a.patches| {
      CleanStays(a, b, j);
    }
  }

  /** A patch over emitted bytes that no patch recorded since `a` uses. */
  lemma GrownPatch(a: Section, b: Section, p: PatchRecord)
    requires a.Valid() && Grown(a, b) && Over(b, p) && |a.buf| <= p.offset
    requires forall k | |a.patches| <= k < |b.patches| :: !Overlap(p, b.patches[k])
    ensures Grown(a, AppendPatch(b, p))
  {
    hide Size, Sized, Template, PowerOfTwo;
    var c := AppendPatch(b, p);
    forall k | 0 <= k < |a.patches|
      ensures !Overlap(p, b.patches[k])
    {
      assert a.Holds(a.patches[k]);
    }
    forall j | |a.patches| <= j < |c.patches|
      ensures |a.buf| <= c.patches[j].offset && Clean(c, j)
    {
      if j < |b.patches| {
        assert Clean(b, j) && c.patches[j] == b.patches[j];
        OverStays(b, c, b.patches[j]);
      }
    }
  }

  /** A patch over bytes that no other patch uses is clean, and leaves the others so. */
  lemma AddedClean(s: Section, p: PatchRecord)
    requires Over(s, p) && forall q | q in s.patches :: !Overlap(p, q)
    ensures Clean(AppendPatch(s, p), |s.patches|)
    ensures forall j | 0 <= j < |s.patches| && Clean(s, j) :: Clean(AppendPatch(s, p), j)
  {
    hide Size, Sized, Template;
    var t := AppendPatch(s, p);
    forall j | 0 <= j < |s.patches| && Clean(s, j)
      ensures Clean(t, j)
    {
      OverStays(s, t, s.patches[j]);
      assert s.patches[j] in s.patches;
    }
  }

  lemma GrownSelf(s: Section, align: nat, writable: bool, insns: bool)
    ensures Grown(s, s.(align := align, writable := writable, insns := insns))
  {
  }

  lemma GrownBytes(s: Section, data: seq<Byte>)
    ensures Grown(s, AppendBytes(s, data))
  {
  }

  lemma GrownAllSelf(secs: seq<Section>)
    ensures GrownAll(secs, secs)
  {
  }

  lemma GrownAllUpdate(secs: seq<Section>, i: nat, s: Section)
    requires i < |secs| && Grown(secs[i], s)
    ensures GrownAll(secs, secs[i := s])
  {
    hide Clean;
  }

  lemma GrownAllMade(secs: seq<Section>, name: string, align: nat)
    ensures GrownAll(secs, WithSection(secs, name, align))
  {
    hide Clean;
  }

  lemma ZeroOver(s: Section, t: Section, p: PatchRecord)
    requires Sized(p.kind) && !p.kind.Slot? && p.offset == |s.buf| && s.buf + Zeros(Size(p.kind)) <= t.buf
    ensures Over(t, p)
  {
    hide Size, Sized, Template;
    ZeroTemplate(p.kind);
    assert t.buf[p.offset..p.offset + Size(p.kind)] == (s.buf + Zeros(Size(p.kind)))[p.offset..] == Zeros(Size(p.kind));
  }

  /** A zero field with its patch. */
  lemma GrownField(s: Section, kind: Kind, target: Target, addend: int)
    requires s.Valid() && Sized(kind) && !kind.Slot?
    ensures Grown(s, WithField(s, kind, target, addend))
  {
    hide Size, Sized, Template, Section.Valid, Clean;
    var t := AppendBytes(s, Zeros(Size(kind)));
    var p := PatchRecord(|s.buf|, kind, target, addend);
    GrownBytes(s, Zeros(Size(kind)));
    ZeroOver(s, t, p);
    GrownPatch(s, t, p);
  }

  lemma GrownSlot(s: Section, extern: Extern)
    requires s.Valid()
    ensures Grown(s, WithSlot(s, extern))
  {
    hide Grown, Section.Valid;
    var padded := AppendBytes(s, SlotPad(|s.buf|));
    GrownBytes(s, SlotPad(|s.buf|));
    GrownSection(s, SlotPad(|s.buf|));
    GrownField(padded, Abs(8), ToExtern(extern), 0);
    GrownChain(s, padded, WithSlot(s, extern));
  }

  lemma GrownSlots(secs: seq<Section>, extern: Extern)
    requires ValidSections(secs)
    ensures GrownAll(secs, SlotSections(secs, extern))
  {
    hide Grown, Section.Valid, GrownAll;
    PowersUsed();
    WithSectionExtends(secs, "externs", 8);
    var more, i := WithSection(secs, "externs", 8), IndexOf(secs, "externs");
    GrownAllMade(secs, "externs", 8);
    GrownSlot(more[i], extern);
    GrownAllUpdate(more, i, WithSlot(more[i], extern));
    GrownAllChain(secs, more, SlotSections(secs, extern));
  }

  // ----- An instruction in its place -----

  /** The code is at `start`, and only patches in `own` write over it. */
  ghost predicate Installed(s: Section, start: nat, code: seq<Byte>, own: set<nat>)
  {
    && start + |code| <= |s.buf| && s.buf[start..start + |code|] == code
    && forall k | 0 <= k < |s.patches| && k !in own ::
         s.patches[k].offset + Size(s.patches[k].kind) <= start || start + |code| <= s.patches[k].offset
  }

  lemma InstalledStays(a: Section, b: Section, start: nat, code: seq<Byte>, own: set<nat>)
    requires Grown(a, b) && Installed(a, start, code, own)
    ensures Installed(b, start, code, own)
  {
    hide Size, Clean;
    assert b.buf[start..start + |code|] == a.buf[start..start + |code|];
  }

  // ----- The order of a dict's keys -----

  predicate DistinctKeys(order: seq<string>)
  {
    forall i, j | 0 <= i < j < |order| :: order[i] != order[j]
  }

  function Without(order: seq<string>, key: string): (r: seq<string>)
    requires DistinctKeys(order)
    ensures DistinctKeys(r)
    ensures forall k :: k in r <==> k in order && k != key
    ensures |r| == |order| - if key in order then 1 else 0
  {
    if order == [] then []
    else if order[0] == key then
      assert key !in order[1..];
      order[1..]
    else
      assert forall k :: k in order <==> k == order[0] || k in order[1..];
      assert order[0] !in order[1..];
      var rest := Without(order[1..], key);
      assert order[0] !in rest;
      [order[0]] + rest
  }

  datatype BindOutcome = Bound | AlreadyBound | WrongAssembler | DuplicateName | ReferencedByName

  /** The kinds that patches use: a slot stands for a field that is no slot itself. */
  predicate Recordable(kind: Kind)
  {
    Sized(kind) && (kind.Slot? ==> !kind.field.Slot?)
  }

  class Assembler {
    var sections: seq<Section>
    var cur: nat
    var labels: seq<Label>
    var symbols: map<string, Label>
    // referenced by name, not bound yet: a dict and the order of its keys
    var named: map<string, Label>
    var namedOrder: seq<string>
    var externSlots: map<string, Label>

    /** `labels` lists each bound label once, in order of binding, at a position inside its section. */
    ghost predicate LabelsOk(secs: seq<Section>)
      reads `labels, labels
    {
      && (forall i | 0 <= i < |labels| :: labels[i].turn == i)
      && (forall l | l in labels :: l.home == this && l.section < |secs| && l.offset <= |secs[l.section].buf|)
    }

    /** `symbols` holds exactly the bound labels that have a name, one per name. */
    ghost predicate SymbolsOk()
      reads `labels, `symbols
    {
      && (forall l | l in labels && l.name.Some? :: l.name.value in symbols && symbols[l.name.value] == l)
      && (forall n | n in symbols :: symbols[n] in labels && symbols[n].name == Some(n))
    }

    /** `named` holds only unbound labels of this assembler, under their own name. */
    ghost predicate NamedOk()
      reads `named, `namedOrder, `symbols, named.Values
    {
      && DistinctKeys(namedOrder) && (forall n :: n in namedOrder <==> n in named)
      && (forall n | n in named ::
            named[n].name == Some(n) && named[n].owner == this && named[n].home == null && n !in symbols)
    }

    /** Each slot is an 8 byte field at a multiple of 8 in `externs` that an ABS64 patch fills. */
    ghost predicate SlotOk(n: string, slot: Label, secs: seq<Section>)
      reads slot
    {
      && slot.home == this && slot.section < |secs|
      && secs[slot.section].name == "externs" && slot.offset % 8 == 0
      && exists e: Extern ::
           e.name == n && PatchRecord(slot.offset, Abs(8), ToExtern(e), 0) in secs[slot.section].patches
    }

    ghost predicate SlotsOk(secs: seq<Section>)
      reads `labels, `externSlots, externSlots.Values
    {
      forall n | n in externSlots :: externSlots[n] in labels && SlotOk(n, externSlots[n], secs)
    }

    ghost predicate Valid()
      reads this, labels, externSlots.Values, named.Values
    {
      && cur < |sections| && ValidSections(sections)
      && LabelsOk(sections) && SymbolsOk() && NamedOk() && SlotsOk(sections)
    }

    constructor ()
      ensures Valid()
      ensures sections == [Section("code", [], [], 16, false, false)] && cur == 0
      ensures labels == [] && symbols == map[] && named == map[] && namedOrder == [] && externSlots == map[]
    {
      sections, cur := [NewSection("code", 16)], 0;
      labels, symbols, named, namedOrder, externSlots := [], map[], map[], [], map[];
      new;
      PowersUsed();
    }

    /** Growing the section table keeps every recorded position and slot. */
    lemma TablesKeep(more: seq<Section>)
      requires Valid() && Extends(sections, more)
      ensures LabelsOk(more) && SlotsOk(more)
    {
      forall n | n in externSlots
        ensures SlotOk(n, externSlots[n], more)
      {
        assert SlotOk(n, externSlots[n], sections);
      }
    }

    // ----- Labels -----

    /** `bind` succeeded: the label sits at the current position and has left the forward table. */
    twostate predicate Entered(lbl: Label)
      reads *
    {
      && sections == old(sections) && cur == old(cur) && externSlots == old(externSlots)
      && old(lbl.home) == null && lbl.home == this && lbl.section == cur && lbl.turn == |old(labels)|
      && cur < |sections| && lbl.offset == |sections[cur].buf|
      && (forall l | l in old(labels) && l != lbl :: unchanged(l))
      && (forall n | n in old(named) && old(named)[n] != lbl :: unchanged(old(named)[n]))
      && labels == old(labels) + [lbl]
      && (lbl.name.Some? ==>
            && lbl.name.value !in old(symbols)
            && symbols == old(symbols)[lbl.name.value := lbl]
            && named == old(named) - {lbl.name.value}
            && DistinctKeys(namedOrder) && (forall n :: n in namedOrder <==> n in named))
      && (lbl.name.None? ==> symbols == old(symbols) && named == old(named) && namedOrder == old(namedOrder))
    }

    twostate lemma EnteredLabels(lbl: Label)
      requires old(Valid()) && Entered(lbl)
      ensures LabelsOk(sections) && SlotsOk(sections)
    {
      hide ValidSections, SymbolsOk, NamedOk;
      assert old(LabelsOk(sections) && SlotsOk(sections));
      assert lbl !in old(labels);
      forall i | 0 <= i < |labels|
        ensures labels[i].turn == i
      {
        if i < |old(labels)| {
          assert labels[i] == old(labels)[i] && labels[i] in old(labels);
        }
      }
      forall n | n in externSlots
        ensures externSlots[n] in labels && SlotOk(n, externSlots[n], sections)
      {
        assert old(SlotOk(n, externSlots[n], sections));
      }
    }

    twostate lemma EnteredTables(lbl: Label)
      requires old(Valid()) && Entered(lbl)
      ensures SymbolsOk() && NamedOk()
    {
      hide ValidSections, LabelsOk, SlotsOk;
      assert old(SymbolsOk() && NamedOk());
      forall n | n in named
        ensures named[n].name == Some(n) && named[n].owner == this && named[n].home == null && n !in symbols
      {
        assert named[n] == old(named)[n];
      }
    }

    lemma OrderFacts()
      requires NamedOk()
      ensures DistinctKeys(namedOrder) && (forall n :: n in namedOrder <==> n in named)
    {
    }

    /** A failed `bind` of a referenced name only moves that name to the end. */
    twostate lemma Reordered(name: string)
      requires old(NamedOk()) && name in old(named)
      requires named == old(named) && symbols == old(symbols)
      requires forall n | n in named :: unchanged(named[n])
      requires DistinctKeys(namedOrder) && forall n :: n in namedOrder <==> n in named
      ensures NamedOk()
    {
    }

    method Bind(lbl: Label) returns (r: BindOutcome)
      requires Valid()
      modifies `labels, `symbols, `named, `namedOrder, lbl
      ensures Valid()
      ensures r == (if old(lbl.home) != null then AlreadyBound
                    else if lbl.owner != null && lbl.owner != this then WrongAssembler
                    else if lbl.name.Some? && lbl.name.value in old(symbols) then DuplicateName
                    else if lbl.name.Some? && lbl.name.value in old(named) && old(named)[lbl.name.value] != lbl
                    then ReferencedByName
                    else Bound)
      ensures r == Bound ==>
        && lbl.home == this && lbl.section == cur && lbl.offset == |sections[cur].buf|
        && labels == old(labels) + [lbl]
        && symbols == (if lbl.name.Some? then old(symbols)[lbl.name.value := lbl] else old(symbols))
        && named == (if lbl.name.Some? then old(named) - {lbl.name.value} else old(named))
        && namedOrder == (if lbl.name.Some? && lbl.name.value in old(named)
                          then Without(old(namedOrder), lbl.name.value)
                          else old(namedOrder))
      ensures r != Bound ==> unchanged(lbl) && labels == old(labels) && symbols == old(symbols) && named == old(named)
      ensures r != Bound && r != ReferencedByName ==> namedOrder == old(namedOrder)
      ensures r == ReferencedByName ==> namedOrder == Without(old(namedOrder), lbl.name.value) + [lbl.name.value]
    {
      hide ValidSections, LabelsOk, SymbolsOk, NamedOk, SlotsOk, Without;
      OrderFacts();
      if lbl.home != null {
        return AlreadyBound;
      }
      if lbl.owner != null && lbl.owner != this {
        return WrongAssembler;
      }
      if lbl.name.Some? {
        var name := lbl.name.value;
        if name in symbols {
          return DuplicateName;
        }
        if name in named && named[name] != lbl {
          // popped, found to be another label, and put back
          var forward := named[name];
          named, namedOrder := named - {name}, Without(namedOrder, name);
          named, namedOrder := named[name := forward], namedOrder + [name];
          assert named == old(named);
          Reordered(name);
          return ReferencedByName;
        }
      }
      Place(lbl);
      return Bound;
    }

    /** The part of `bind` after its checks. */
    method Place(lbl: Label)
      requires Valid()
      requires lbl.home == null && (lbl.owner == null || lbl.owner == this)
      requires lbl.name.Some? ==>
        lbl.name.value !in symbols && (lbl.name.value in named ==> named[lbl.name.value] == lbl)
      modifies `labels, `symbols, `named, `namedOrder, lbl
      ensures Valid()
      ensures lbl.home == this && lbl.section == cur && lbl.offset == |sections[cur].buf|
      ensures labels == old(labels) + [lbl]
      ensures symbols == if lbl.name.Some? then old(symbols)[lbl.name.value := lbl] else old(symbols)
      ensures named == if lbl.name.Some? then old(named) - {lbl.name.value} else old(named)
      ensures namedOrder == (if lbl.name.Some? && lbl.name.value in old(named)
                             then Without(old(namedOrder), lbl.name.value)
                             else old(namedOrder))
    {
      hide ValidSections, LabelsOk, SymbolsOk, NamedOk, SlotsOk, Without;
      OrderFacts();
      if lbl.name.Some? {
        var name := lbl.name.value;
        if name in named {
          named, namedOrder := named - {name}, Without(namedOrder, name);
        }
        symbols := symbols[name := lbl];
      }
      lbl.home, lbl.section, lbl.offset, lbl.turn := this, cur, |sections[cur].buf|, |labels|;
      labels := labels + [lbl];
      EnteredLabels(lbl);
      EnteredTables(lbl);
    }

    method Named(name: string) returns (lbl: Label)
      requires Valid()
      modifies `named, `namedOrder
      ensures Valid()
      ensures name in old(symbols) ==> lbl == old(symbols)[name] && named == old(named) && namedOrder == old(namedOrder)
      ensures name !in old(symbols) && name in old(named) ==>
        lbl == old(named)[name] && named == old(named) && namedOrder == old(namedOrder)
      ensures name !in old(symbols) && name !in old(named) ==>
        fresh(lbl) && lbl.name == Some(name) && lbl.owner == this && lbl.home == null
        && named == old(named)[name := lbl] && namedOrder == old(namedOrder) + [name]
    {
      hide ValidSections, LabelsOk, SymbolsOk, SlotsOk;
      if name in symbols {
        return symbols[name];
      }
      if name in named {
        return named[name];
      }
      lbl := new Label(Some(name), this);
      named, namedOrder := named[name := lbl], namedOrder + [name];
    }

    lemma TablesDisjoint(name: string)
      requires Valid()
      ensures name in symbols ==> symbols[name].home == this && name !in named
      ensures name in named ==> named[name].home == null && named[name].owner == this && named[name].name == Some(name)
    {
    }

    /**
      `label(name)`: binds the very label that string operands called `name` stand for, or a new one.
      It fails exactly if the name is bound already, and then changes nothing.
     */
    method Define(name: string) returns (lbl: Label, r: BindOutcome)
      requires Valid()
      modifies `labels, `symbols, `named, `namedOrder
      modifies if name in symbols then {symbols[name]} else if name in named then {named[name]} else {}
      ensures Valid()
      ensures r == if name in old(symbols) then AlreadyBound else Bound
      ensures name in old(symbols) ==> lbl == old(symbols)[name] && unchanged(lbl)
      ensures name in old(named) ==> lbl == old(named)[name]
      ensures name !in old(symbols) && name !in old(named) ==> fresh(lbl)
      ensures r == Bound ==>
        && lbl.name == Some(name) && lbl.home == this && lbl.section == cur && lbl.offset == |sections[cur].buf|
        && labels == old(labels) + [lbl] && symbols == old(symbols)[name := lbl]
        && named == old(named) - {name}
        && namedOrder == (if name in old(named) then Without(old(namedOrder), name) else old(namedOrder))
      ensures r != Bound ==>
        labels == old(labels) && symbols == old(symbols) && named == old(named) && namedOrder == old(namedOrder)
    {
      hide ValidSections, LabelsOk, SymbolsOk, NamedOk, SlotsOk, Without;
      TablesDisjoint(name);
      lbl := Named(name);
      TablesDisjoint(name);
      if name !in old(named) && name !in symbols {
        OrderFacts();
        assert old(namedOrder) + [name] + [] == namedOrder && old(namedOrder) + [] == old(namedOrder);
        WithoutMiddle(old(namedOrder), name, []);
      }
      r := Bind(lbl);
    }

    lemma LabelsWithin()
      requires Valid()
      ensures forall l | l in labels && l.section == cur :: l.offset <= |sections[cur].buf|
    {
    }

    // ----- Sections -----

    /** Every change of the section table goes through here: it only grows. */
    method Update(more: seq<Section>)
      requires Valid() && ValidSections(more) && Extends(sections, more)
      modifies `sections
      ensures Valid() && sections == more
    {
      hide ValidSections, LabelsOk, SymbolsOk, NamedOk, SlotsOk;
      TablesKeep(more);
      sections := more;
    }

    method Emit(data: seq<Byte>)
      requires Valid()
      modifies `sections
      ensures Valid()
      ensures sections == old(sections[cur := AppendBytes(sections[cur], data)])
      ensures GrownAll(old(sections), sections)
    {
      hide ValidSections, LabelsOk, SymbolsOk, NamedOk, SlotsOk, GrownAll;
      ValidAt(sections, cur);
      GrownBytes(sections[cur], data);
      GrownAllUpdate(sections, cur, AppendBytes(sections[cur], data));
      GrownSection(sections[cur], data);
      UpdateExtends(sections, cur, AppendBytes(sections[cur], data));
      Update(sections[cur := AppendBytes(sections[cur], data)]);
    }

    /** Switches to a section, creating it if needed; false is the ValueError of a bad alignment. */
    method SwitchTo(name: string, align: Option<int>, writable: Option<bool>) returns (ok: bool)
      requires Valid()
      modifies `sections, `cur
      ensures Valid()
      ensures ok == (align.Some? ==> 0 < align.value && PowerOfTwo(align.value))
      ensures !ok ==> sections == old(sections) && cur == old(cur)
      ensures ok ==>
        && Selected(old(sections), sections, name, cur)
        && var s := if cur < |old(sections)| then old(sections)[cur] else Section(name, [], [], 16, false, false);
        sections[cur] == s.(align := if align.Some? && s.align < align.value then align.value else s.align,
                            writable := if writable.Some? then writable.value else s.writable)
      ensures GrownAll(old(sections), sections)
    {
      hide ValidSections, LabelsOk, SymbolsOk, NamedOk, SlotsOk, GrownAll;
      GrownAllSelf(sections);
      if align.Some? && !(0 < align.value && PowerOfTwo(align.value)) {
        return false;
      }
      PowersUsed();
      ConfiguredGrows(sections, name, align, writable);
      WithSectionExtends(sections, name, 16);
      SelectedMade(sections, name, 16);
      var i := IndexOf(sections, name);
      Update(WithSection(sections, name, 16));
      cur := i;
      ValidAt(sections, cur);
      ConfiguredValid(sections[cur], align, writable);
      UpdateExtends(sections, cur, Configured(sections[cur], align, writable));
      SelectedUpdate(old(sections), sections, name, cur, Configured(sections[cur], align, writable));
      Update(sections[cur := Configured(sections[cur], align, writable)]);
      return true;
    }

    /**
      Pads to a multiple of n and raises the alignment to at least n. False is a ValueError: n is no
      power of two, or padding was needed from an empty `fill` (the alignment stays raised then).
     */
    method Align(n: int, fill: Option<seq<Byte>>, nopFill: nat -> seq<Byte>) returns (ok: bool)
      requires Valid() && forall k :: |nopFill(k)| == k
      modifies `sections
      ensures Valid()
      ensures ok == (0 < n && PowerOfTwo(n) && (fill == Some([]) ==> |old(sections[cur]).buf| % n == 0))
      ensures !(0 < n && PowerOfTwo(n)) ==> sections == old(sections)
      ensures 0 < n && PowerOfTwo(n) ==>
        && |sections| == |old(sections)|
        && var s, now := old(sections[cur]), sections[cur];
        && sections == old(sections)[cur := now]
        && now == s.(align := if s.align < n then n else s.align, buf := now.buf)
        && s.buf <= now.buf && (!ok ==> now.buf == s.buf)
        && (ok ==>
              && |now.buf| % n == 0 && |now.buf| < |s.buf| + n
              && IsPadding(now.buf[|s.buf|..], s.insns, fill, nopFill))
      ensures GrownAll(old(sections), sections)
    {
      hide ValidSections, LabelsOk, SymbolsOk, NamedOk, SlotsOk, GrownAll;
      GrownAllSelf(sections);
      if !(0 < n && PowerOfTwo(n)) {
        return false;
      }
      ValidAt(sections, cur);
      var s := Configured(sections[cur], Some(n), None);
      ConfiguredValid(sections[cur], Some(n), None);
      GrownSelf(sections[cur], s.align, s.writable, s.insns);
      GrownAllUpdate(sections, cur, s);
      UpdateExtends(sections, cur, s);
      Update(sections[cur := s]);
      var pad := (0 - |s.buf|) % n;
      PaddingSize(s, n, fill, nopFill);
      PaddingIs(s, n, fill, nopFill);
      hide IsPadding, Padding;
      if pad == 0 {
        assert s.buf[|s.buf|..] == [];
        return true;
      }
      if fill == Some([]) {
        return false;
      }
      ghost var mid := sections;
      assert (s.buf + Padding(s, n, fill, nopFill))[|s.buf|..] == Padding(s, n, fill, nopFill);
      Emit(Padding(s, n, fill, nopFill));
      GrownAllChain(old(sections), mid, sections);
      return true;
    }

    // ----- Patches -----

    /** The end of `add_patch`: record a patch over emitted bytes of the current section. */
    method Record(p: PatchRecord)
      requires Valid() && sections[cur].Holds(p)
      modifies `sections
      ensures Valid()
      ensures sections == old(sections[cur := AppendPatch(sections[cur], p)])
    {
      hide ValidSections, LabelsOk, SymbolsOk, NamedOk, SlotsOk;
      ValidAt(sections, cur);
      UpdateExtends(sections, cur, AppendPatch(sections[cur], p));
      Update(sections[cur := AppendPatch(sections[cur], p)]);
    }

    /** `emit_patch` for a kind that is no SlotKind: reserve zero bytes and record a patch over them. */
    method EmitField(kind: Kind, target: Target, addend: int)
      requires Valid() && Sized(kind) && !kind.Slot?
      modifies `sections
      ensures Valid()
      ensures sections == old(sections[cur := WithField(sections[cur], kind, target, addend)])
      ensures GrownAll(old(sections), sections)
    {
      hide ValidSections, LabelsOk, SymbolsOk, NamedOk, SlotsOk, GrownAll;
      ValidAt(sections, cur);
      GrownField(sections[cur], kind, target, addend);
      GrownAllUpdate(sections, cur, WithField(sections[cur], kind, target, addend));
      var start := |sections[cur].buf|;
      Emit(Zeros(Size(kind)));
      Record(PatchRecord(start, kind, target, addend));
    }

    /** The label of the 8 byte slot that holds an extern's address, made on first request. */
    method ExternSlot(extern: Extern) returns (slot: Label)
      requires Valid()
      modifies `sections, `cur, `labels, `symbols, `named, `namedOrder, `externSlots
      ensures Valid()
      ensures cur == old(cur) && symbols == old(symbols) && named == old(named) && namedOrder == old(namedOrder)
      ensures externSlots == old(externSlots)[extern.name := slot]
      ensures extern.name in old(externSlots) ==>
        slot == old(externSlots)[extern.name] && sections == old(sections) && labels == old(labels)
      ensures extern.name !in old(externSlots) ==>
        && sections == SlotSections(old(sections), extern) && labels == old(labels) + [slot]
        && fresh(slot) && slot.name == None && slot.home == this
        && Selected(old(sections), sections, "externs", slot.section)
        && var s := if slot.section < |old(sections)| then old(sections)[slot.section]
                    else Section("externs", [], [], 8, false, false);
        && |s.buf| <= slot.offset < |s.buf| + 8 && slot.offset % 8 == 0
        && sections[slot.section] == s.(buf := s.buf + Zeros(slot.offset + 8 - |s.buf|),
                                        patches := s.patches + [PatchRecord(slot.offset, Abs(8), ToExtern(extern), 0)])
      ensures GrownAll(old(sections), sections)
    {
      hide ValidSections, LabelsOk, SymbolsOk, NamedOk, SlotsOk, GrownAll, SlotSections, Selected;
      GrownAllSelf(sections);
      GrownSlots(sections, extern);
      SlotSectionsMean(sections, extern);
      if extern.name in externSlots {
        slot := externSlots[extern.name];
        return;
      }
      slot := MakeSlot(extern);
    }

    /** The first request for an extern's slot. */
    method MakeSlot(extern: Extern) returns (slot: Label)
      requires Valid() && extern.name !in externSlots
      modifies `sections, `cur, `labels, `symbols, `named, `namedOrder, `externSlots
      ensures Valid()
      ensures cur == old(cur) && symbols == old(symbols) && named == old(named) && namedOrder == old(namedOrder)
      ensures externSlots == old(externSlots)[extern.name := slot]
      ensures sections == SlotSections(old(sections), extern) && labels == old(labels) + [slot]
      ensures fresh(slot) && slot.name == None && slot.home == this
      ensures slot.section == IndexOf(old(sections), "externs")
      ensures slot.section < |sections| && slot.offset + 8 == |sections[slot.section].buf|
    {
      hide ValidSections, LabelsOk, SymbolsOk, NamedOk, SlotsOk, IndexOf, WithSection;
      PowersUsed();
      WithSectionExtends(sections, "externs", 8);
      var i := IndexOf(sections, "externs");
      Update(WithSection(sections, "externs", 8));
      var prev := cur;
      cur := i;
      slot := AppendSlot(extern);
      cur := prev;
      Register(extern, slot);
    }

    /** In the externs section: pad to 8, bind a fresh label, emit the pointer. */
    method AppendSlot(extern: Extern) returns (slot: Label)
      requires Valid()
      modifies `sections, `labels, `symbols, `named, `namedOrder
      ensures Valid()
      ensures symbols == old(symbols) && named == old(named) && namedOrder == old(namedOrder)
      ensures sections == old(sections[cur := WithSlot(sections[cur], extern)])
      ensures fresh(slot) && slot.name == None && labels == old(labels) + [slot]
      ensures slot.home == this && slot.section == cur && slot.offset % 8 == 0
      ensures slot.offset == |old(sections[cur]).buf| + |SlotPad(|old(sections[cur]).buf|)|
    {
      hide ValidSections, LabelsOk, SymbolsOk, NamedOk, SlotsOk;
      var s := sections[cur];
      var pad := SlotPad(|s.buf|);
      ValidAt(sections, cur);
      SlotSectionValid(s, extern);
      Emit(pad);
      slot := new Label(None, this);
      var bound := Bind(slot);
      EmitField(Abs(8), ToExtern(extern), 0);
    }

    method Register(extern: Extern, slot: Label)
      requires Valid() && slot in labels && extern.name !in externSlots
      requires slot.home == this && slot.section < |sections| && sections[slot.section].name == "externs"
      requires slot.offset % 8 == 0
      requires PatchRecord(slot.offset, Abs(8), ToExtern(extern), 0) in sections[slot.section].patches
      modifies `externSlots
      ensures Valid() && externSlots == old(externSlots)[extern.name := slot]
    {
      hide ValidSections, LabelsOk, SymbolsOk, NamedOk;
      assert SlotOk(extern.name, slot, sections);
      externSlots := externSlots[extern.name := slot];
      forall n | n in externSlots
        ensures externSlots[n] in labels && SlotOk(n, externSlots[n], sections)
      {
        if n != extern.name {
          assert old(SlotOk(n, externSlots[n], sections));
        }
      }
    }

    /** False: a slot patch to a label (TypeError), or a field outside the emitted bytes (ValueError). */
    method AddPatch(offset: int, kind: Kind, target: Target, addend: int) returns (ok: bool)
      requires Valid() && Recordable(kind)
      modifies `sections, `cur, `labels, `symbols, `named, `namedOrder, `externSlots
      ensures Valid() && cur == old(cur)
      ensures symbols == old(symbols) && named == old(named) && namedOrder == old(namedOrder)
      ensures ok == ((kind.Slot? ==> target.ToExtern?) && 0 <= offset <= |old(sections[cur]).buf| - Size(kind))
      ensures !ok ==> sections == old(sections) && labels == old(labels) && externSlots == old(externSlots)
      ensures ok ==>
        && (kind.Slot? ==> externSlots.Keys == old(externSlots.Keys) + {target.extern.name})
        && (!kind.Slot? ==> externSlots == old(externSlots) && labels == old(labels))
        && (forall n | n in old(externSlots) :: externSlots[n] == old(externSlots)[n])
        && old(labels) <= labels && Framed(old(sections), sections, cur)
        && var secs := SectionsFor(old(sections), old(externSlots.Keys), kind, target);
        && cur < |secs|
        && var p := if kind.Slot? then PatchRecord(offset, kind.field, ToLabel(externSlots[target.extern.name]), addend)
                    else PatchRecord(offset, kind, target, addend);
        && sections == secs[cur := secs[cur].(patches := secs[cur].patches + [p])]
    {
      hide ValidSections, LabelsOk, SymbolsOk, NamedOk, SlotsOk, Framed;
      if kind.Slot? && !target.ToExtern? {
        return false;
      }
      if !(0 <= offset <= |sections[cur].buf| - Size(kind)) {
        return false;
      }
      var field, dest := kind, target;
      SectionsForGrows(sections, externSlots.Keys, kind, target, cur);
      if kind.Slot? {
        var slot := ExternSlot(target.extern);
        field, dest := kind.field, ToLabel(slot);
      }
      FramedSlot(old(sections), old(externSlots.Keys), kind, target, cur);
      Record(PatchRecord(offset, field, dest, addend));
      ghost var secs := SectionsFor(old(sections), old(externSlots.Keys), kind, target);
      FramedUpdate(secs, cur, sections[cur]);
      FramedChain(old(sections), secs, sections, cur);
      return true;
    }

    /** Reserve a zeroed field and patch it. False is the TypeError above; then nothing stays emitted. */
    method EmitPatch(kind: Kind, target: Target, addend: int) returns (ok: bool)
      requires Valid() && Recordable(kind)
      modifies `sections, `cur, `labels, `symbols, `named, `namedOrder, `externSlots
      ensures Valid() && cur == old(cur)
      ensures symbols == old(symbols) && named == old(named) && namedOrder == old(namedOrder)
      ensures ok == (kind.Slot? ==> target.ToExtern?)
      ensures !ok ==> sections == old(sections) && labels == old(labels) && externSlots == old(externSlots)
      ensures ok ==>
        && (kind.Slot? ==> externSlots.Keys == old(externSlots.Keys) + {target.extern.name})
        && (!kind.Slot? ==> externSlots == old(externSlots) && labels == old(labels))
        && (forall n | n in old(externSlots) :: externSlots[n] == old(externSlots)[n])
        && var s := AppendBytes(old(sections[cur]), Zeros(Size(kind)));
        && var at := |old(sections[cur]).buf|;
        && var p := if kind.Slot? then PatchRecord(at, kind.field, ToLabel(externSlots[target.extern.name]), addend)
                    else PatchRecord(at, kind, target, addend);
        && sections[cur] == AppendPatch(if OwnSlot(s, old(externSlots.Keys), kind, target)
                                        then WithSlot(s, target.extern)
                                        else s, p)
        && old(labels) <= labels && Tidy(old(sections), sections, cur)
    {
      hide ValidSections, LabelsOk, SymbolsOk, NamedOk, SlotsOk, Tidy;
      var s := sections[cur];
      ValidAt(sections, cur);
      LabelsWithin();
      Emit(Zeros(Size(kind)));
      SectionsForGrows(sections, externSlots.Keys, kind, target, cur);
      ok := AddPatch(|s.buf|, kind, target, addend);
      if ok {
        ghost var field := if kind.Slot? then kind.field else kind;
        ghost var dest := if kind.Slot? then ToLabel(externSlots[target.extern.name]) else target;
        TidyField(old(sections), cur, old(externSlots.Keys), kind, target, PatchRecord(|s.buf|, field, dest, addend));
      } else {
        RollBack(s);
      }
    }

    /** `del sec.buf[start:]` after a rejected patch. */
    method RollBack(s: Section)
      requires Valid() && s.Valid() && exists z :: sections[cur] == AppendBytes(s, z)
      requires forall l | l in labels && l.section == cur :: l.offset <= |s.buf|
      modifies `sections
      ensures Valid() && sections == old(sections)[cur := s]
    {
      hide SymbolsOk, NamedOk, PowerOfTwo, Section.Valid;
      sections := sections[cur := s];
      forall n | n in externSlots
        ensures SlotOk(n, externSlots[n], sections)
      {
        assert old(SlotOk(n, externSlots[n], sections));
      }
    }

    // ----- Instructions -----

    /**
      Emit an encoded instruction chunk by chunk around its fixups. The emitted bytes are the
      encoded ones exactly if no fixup asks for a new slot while `externs` is the current section, and
      the instruction is whole exactly if no such slot is in its way.
     */
    method Flush(code: seq<Byte>, fixups: seq<Fixup>)
      requires Valid() && FixupsOk(code, fixups)
      modifies `sections, `cur, `labels, `symbols, `named, `namedOrder, `externSlots
      ensures Valid() && cur == old(cur)
      ensures symbols == old(symbols) && named == old(named) && namedOrder == old(namedOrder)
      ensures Requested(fixups, externSlots) && externSlots.Keys == old(externSlots.Keys) + SlotNames(fixups)
      ensures forall n | n in old(externSlots) :: externSlots[n] == old(externSlots)[n]
      ensures old(labels) <= labels && Tidy(old(sections), sections, cur)
      ensures sections[cur] == AfterFlush(old(sections[cur]), old(externSlots.Keys), externSlots, code, fixups)
      ensures Placement(old(sections[cur]), sections[cur], old(externSlots.Keys), externSlots, code, fixups)
    {
      hide ValidSections, LabelsOk, SymbolsOk, NamedOk, SlotsOk, FixupsOk, SlotNames, Tidy, Requested;
      hide FlushedTo, WithFixup, Placement;
      ghost var s, keys := sections[cur], externSlots.Keys;
      var pos: nat := 0;
      FlushStarts(s, keys, externSlots, code, fixups);
      TidySelf(sections, cur);
      for k := 0 to |fixups|
        invariant Valid() && cur == old(cur)
        invariant symbols == old(symbols) && named == old(named) && namedOrder == old(namedOrder)
        invariant forall n | n in old(externSlots) :: n in externSlots && externSlots[n] == old(externSlots)[n]
        invariant old(labels) <= labels && Tidy(old(sections), sections, cur)
        invariant FixupsOk(code, fixups[..k]) && Requested(fixups[..k], externSlots) && pos == LastEnd(fixups[..k])
        invariant externSlots.Keys == keys + SlotNames(fixups[..k])
        invariant sections[cur] == FlushedTo(s, keys, externSlots, code, fixups[..k])
      {
        var f := fixups[k];
        FixupAt(code, fixups, k);
        TakeNext(fixups, k);
        PrefixOk(code, fixups, k + 1);
        LastFixup(code, fixups[..k + 1]);
        ghost var start, slots := sections, externSlots;
        FlushFixup(code, f, pos);
        TidyChain(old(sections), start, sections, cur);
        FlushTurn(s, keys, slots, externSlots, code, fixups[..k + 1]);
        pos := f.off + Size(f.kind);
      }
      assert fixups[..|fixups|] == fixups;
      LastFixup(code, fixups);
      ghost var start := sections;
      FlushRest(code, pos);
      TidyChain(old(sections), start, sections, cur);
      FlushMeans(s, keys, externSlots, code, fixups);
    }

    /** One turn of the loop in `flush`: the bytes up to a fixup, and its field. */
    method FlushFixup(code: seq<Byte>, f: Fixup, pos: nat)
      requires Valid() && FixupOk(code, f) && pos <= f.off
      modifies `sections, `cur, `labels, `symbols, `named, `namedOrder, `externSlots
      ensures Valid() && cur == old(cur)
      ensures symbols == old(symbols) && named == old(named) && namedOrder == old(namedOrder)
      ensures externSlots.Keys == old(externSlots.Keys) + SlotNames([f])
      ensures forall n | n in old(externSlots) :: externSlots[n] == old(externSlots)[n]
      ensures old(labels) <= labels && Tidy(old(sections), sections, cur)
      ensures f.kind.Slot? ==> f.target.ToExtern? && f.target.extern.name in externSlots
      ensures sections[cur] == WithFixup(AppendBytes(old(sections[cur]), code[pos..f.off]), f, old(externSlots.Keys),
                                         externSlots, |code|)
    {
      hide ValidSections, LabelsOk, SymbolsOk, NamedOk, SlotsOk, SlotNames, Tidy, OwnSlot, WithSlot;
      AppendNothing(sections[cur]);
      if pos < f.off {
        Emit(code[pos..f.off]);
      }
      assert sections[cur] == AppendBytes(old(sections[cur]), code[pos..f.off]);
      assert sections == old(sections)[cur := sections[cur]];
      GrownBytes(old(sections[cur]), code[pos..f.off]);
      ghost var mid := sections;
      TidyUpdate(old(sections), cur, sections[cur]);
      SlotNamesSplit([], f);
      var ok := EmitPatch(f.kind, f.target, Adjusted(f, |code|));
      TidyChain(old(sections), mid, sections, cur);
    }

    /** The end of `flush`: the bytes after the last fixup. */
    method FlushRest(code: seq<Byte>, pos: nat)
      requires Valid() && pos <= |code|
      modifies `sections
      ensures Valid() && Tidy(old(sections), sections, cur)
      ensures sections[cur] == AppendBytes(old(sections[cur]), code[pos..]).(insns := true)
    {
      hide ValidSections, LabelsOk, SymbolsOk, NamedOk, SlotsOk, Tidy;
      AppendNothing(sections[cur]);
      if pos < |code| {
        Emit(code[pos..]);
      }
      ghost var mid := sections;
      assert sections == old(sections)[cur := sections[cur]];
      GrownBytes(old(sections[cur]), code[pos..]);
      TidyUpdate(old(sections), cur, sections[cur]);
      NoteInsn();
      GrownSelf(mid[cur], mid[cur].align, mid[cur].writable, true);
      TidyUpdate(mid, cur, sections[cur]);
      TidyChain(old(sections), mid, sections, cur);
    }

    // ----- Encoding with names -----

    /** `_resolve_names`: the labels of an instruction's string operands, made if they do not exist. */
    method ResolveNames(names: seq<string>)
      requires Valid()
      modifies `named, `namedOrder
      ensures Valid()
      ensures old(namedOrder) <= namedOrder
      ensures forall n :: n in named <==> n in old(named) || (n in names && n !in symbols)
      ensures forall n | n in old(named) :: named[n] == old(named)[n]
      ensures forall n | n in named && n !in old(named) :: fresh(named[n])
    {
      hide ValidSections, LabelsOk, SymbolsOk, NamedOk, SlotsOk;
      for k := 0 to |names|
        invariant Valid()
        invariant old(namedOrder) <= namedOrder
        invariant forall n :: n in named <==> n in old(named) || (n in names[..k] && n !in symbols)
        invariant forall n | n in old(named) :: named[n] == old(named)[n]
        invariant forall n | n in named && n !in old(named) :: fresh(named[n])
      {
        var lbl := Named(names[k]);
        assert names[..k + 1] == names[..k] + [names[k]];
      }
      assert names[..|names|] == names;
    }

    /** `_forget_names_on_error`, when the block raised: drop the names added since there were `before`. */
    method ForgetNames(before: nat)
      requires Valid() && before <= |namedOrder|
      modifies `named, `namedOrder
      ensures Valid()
      ensures namedOrder == old(namedOrder)[..before]
      ensures forall n :: n in named <==> n in old(namedOrder)[..before]
      ensures forall n | n in named :: n in old(named) && named[n] == old(named)[n]
    {
      hide ValidSections, LabelsOk, SymbolsOk, NamedOk, SlotsOk, Without;
      var gone := namedOrder[before..];
      OrderFacts();
      for j := 0 to |gone|
        invariant Valid()
        invariant namedOrder == old(namedOrder)[..before] + gone[j..]
        invariant forall n | n in named :: n in old(named) && named[n] == old(named)[n]
      {
        var front, rest := old(namedOrder)[..before], gone[j + 1..];
        TakeOut(front, gone, j);
        OrderFacts();
        WithoutMiddle(front, gone[j], rest);
        Forget(gone[j]);
      }
      OrderFacts();
    }

    method Forget(name: string)
      requires Valid()
      modifies `named, `namedOrder
      ensures Valid() && DistinctKeys(old(namedOrder))
      ensures named == old(named) - {name} && namedOrder == Without(old(namedOrder), name)
    {
      hide ValidSections, LabelsOk, SymbolsOk, SlotsOk, Without;
      named, namedOrder := named - {name}, Without(namedOrder, name);
    }

    /**
      One instruction. A rejected one leaves no trace, not even the forward references its string
      operands made; an accepted one is flushed with those operands standing for their labels.
     */
    method Encode(names: seq<string>, encoding: Encoding) returns (ok: bool)
      requires Valid() && EncodingOk(names, encoding)
      modifies `sections, `cur, `labels, `symbols, `named, `namedOrder, `externSlots
      ensures Valid() && cur == old(cur) && symbols == old(symbols)
      ensures ok == encoding.Encoded?
      ensures !ok ==>
        && sections == old(sections) && labels == old(labels) && externSlots == old(externSlots)
        && named == old(named) && namedOrder == old(namedOrder)
      ensures ok ==>
        && (forall n :: n in named <==> n in old(named) || (n in names && n !in symbols))
        && (forall n | n in old(named) :: named[n] == old(named)[n])
        && (forall n | n in named && n !in old(named) :: fresh(named[n]))
        && (forall n | n in names :: n in symbols || n in named)
      ensures ok ==> old(labels) <= labels && Tidy(old(sections), sections, cur)
      ensures ok ==>
        && var fixups := encoding.Fixups(symbols, named);
        && FixupsOk(encoding.code, fixups) && Requested(fixups, externSlots)
        && externSlots.Keys == old(externSlots.Keys) + SlotNames(fixups)
        && (forall n | n in old(externSlots) :: externSlots[n] == old(externSlots)[n])
        && sections[cur] == AfterFlush(old(sections[cur]), old(externSlots.Keys), externSlots, encoding.code, fixups)
        && Placement(old(sections[cur]), sections[cur], old(externSlots.Keys), externSlots, encoding.code, fixups)
      ensures !ok ==> NoneFresh()
    {
      hide ValidSections, LabelsOk, SymbolsOk, NamedOk, SlotsOk, FixupsOk, SlotNames, Tidy, Requested;
      hide AfterFlush, Placement;
      OrderFacts();
      var before := |namedOrder|;
      ResolveNames(names);
      if encoding.Rejected? {
        ForgetNames(before);
        assert namedOrder == old(namedOrder);
        return false;
      }
      FixupsResolved(encoding, symbols, named, names);
      Flush(encoding.code, encoding.Fixups(symbols, named));
      return true;
    }

    /** No patch of any section refers to a label made since the old state, so none to a forgotten one. */
    twostate predicate NoneFresh()
      reads this
    {
      forall i, p | 0 <= i < |sections| && p in sections[i].patches && p.target.ToLabel? :: !fresh(p.target.lbl)
    }

    /**
      The same for instructions made of words: the words are emitted with their field zero, and a
      label operand is patched in over them.
     */
    method EncodeWords(names: seq<string>, encoding: WordEncoding) returns (ok: bool)
      requires Valid() && WordsOk(names, encoding)
      modifies `sections, `cur, `labels, `symbols, `named, `namedOrder, `externSlots
      ensures Valid() && cur == old(cur) && symbols == old(symbols)
      ensures labels == old(labels) && externSlots == old(externSlots)
      ensures ok == encoding.Words?
      ensures !ok ==> sections == old(sections) && named == old(named) && namedOrder == old(namedOrder) && NoneFresh()
      ensures ok ==>
        && (forall n :: n in named <==> n in old(named) || (n in names && n !in symbols))
        && (forall n | n in old(named) :: named[n] == old(named)[n])
        && (forall n | n in named && n !in old(named) :: fresh(named[n]))
        && (forall n | n in names :: n in symbols || n in named)
      ensures ok ==>
        && NamesKnown(encoding, symbols, named)
        && var s := old(sections[cur]);
        && sections == old(sections)[cur := s.(
             buf := s.buf + encoding.code, insns := true,
             patches := s.patches + match encoding.patch
                          case None => []
                          case Some(p) => [PatchRecord(|s.buf|, p.kind, p.operand.Resolved(symbols, named), 0)])]
        && Tidy(old(sections), sections, cur)
    {
      hide ValidSections, LabelsOk, SymbolsOk, NamedOk, SlotsOk, Tidy, WordsOk, WithWords;
      OrderFacts();
      var before := |namedOrder|;
      ResolveNames(names);
      if encoding.Refused? {
        ForgetNames(before);
        assert namedOrder == old(namedOrder);
        return false;
      }
      EmitWords(names, encoding);
      WordsAre(old(sections[cur]), encoding, symbols, named);
      return true;
    }

    /** The end of the word encoders: emit, patch, note. */
    method EmitWords(names: seq<string>, encoding: WordEncoding)
      requires Valid() && encoding.Words? && WordsOk(names, encoding)
      requires forall n | n in names :: n in symbols || n in named
      modifies `sections, `cur, `labels, `symbols, `named, `namedOrder, `externSlots
      ensures Valid() && cur == old(cur) && symbols == old(symbols) && named == old(named)
        && namedOrder == old(namedOrder)
      ensures labels == old(labels) && externSlots == old(externSlots)
      ensures NamesKnown(encoding, symbols, named)
      ensures sections == old(sections)[cur := WithWords(old(sections[cur]), encoding, symbols, named)]
      ensures Tidy(old(sections), sections, cur)
    {
      hide ValidSections, LabelsOk, SymbolsOk, NamedOk, SlotsOk, Tidy, Template, Size, Sized;
      var start := |sections[cur].buf|;
      ValidAt(sections, cur);
      WordsTidy(sections, cur, names, encoding, symbols, named);
      Emit(encoding.code);
      if encoding.patch.Some? {
        var target := encoding.patch.value.operand.Resolved(symbols, named);
        var patched := AddPatch(start, encoding.patch.value.kind, target, 0);
      }
      NoteInsn();
    }

    method NoteInsn()
      requires Valid()
      modifies `sections
      ensures Valid() && sections == old(sections[cur := sections[cur].(insns := true)])
      ensures GrownAll(old(sections), sections)
    {
      hide ValidSections, LabelsOk, SymbolsOk, NamedOk, SlotsOk, GrownAll;
      GrownSelf(sections[cur], sections[cur].align, sections[cur].writable, true);
      GrownAllUpdate(sections, cur, sections[cur].(insns := true));
      ValidAt(sections, cur);
      NotedValid(sections[cur]);
      UpdateExtends(sections, cur, sections[cur].(insns := true));
      Update(sections[cur := sections[cur].(insns := true)]);
    }
  }

  /** Sections other than `cur` and externs stay the same, and none loses anything. */
  predicate Framed(before: seq<Section>, after: seq<Section>, cur: nat)
  {
    && Extends(before, after)
    && forall i | 0 <= i < |before| && i != cur && before[i].name != "externs" :: after[i] == before[i]
  }

  lemma FramedChain(a: seq<Section>, b: seq<Section>, c: seq<Section>, cur: nat)
    requires Framed(a, b, cur) && Framed(b, c, cur)
    ensures Framed(a, c, cur)
  {
    forall i | 0 <= i < |a|
      ensures a[i].buf <= c[i].buf && a[i].patches <= c[i].patches && a[i].name == c[i].name && a[i].align <= c[i].align
    {
      assert a[i].buf <= b[i].buf <= c[i].buf && a[i].patches <= b[i].patches <= c[i].patches;
    }
  }

  /** And what was emitted keeps clean patches clean, and adds only such. */
  ghost predicate Tidy(before: seq<Section>, after: seq<Section>, cur: nat)
  {
    Framed(before, after, cur) && GrownAll(before, after)
  }

  lemma TidyChain(a: seq<Section>, b: seq<Section>, c: seq<Section>, cur: nat)
    requires ValidSections(b) && Tidy(a, b, cur) && Tidy(b, c, cur)
    ensures Tidy(a, c, cur)
  {
    hide Framed, GrownAll, ValidSections;
    FramedChain(a, b, c, cur);
    GrownAllChain(a, b, c);
  }

  lemma TidySelf(secs: seq<Section>, cur: nat)
    ensures Tidy(secs, secs, cur)
  {
  }

  lemma TidyUpdate(secs: seq<Section>, cur: nat, s: Section)
    requires cur < |secs| && secs[cur].align <= s.align && Grown(secs[cur], s)
    ensures Tidy(secs, secs[cur := s], cur)
  {
    hide Clean;
    FramedUpdate(secs, cur, s);
    GrownAllUpdate(secs, cur, s);
  }

  /** The table after a zero field and its patch, with the slot that the patch may need made in between. */
  lemma TidyField(secs: seq<Section>, cur: nat, slots: set<string>, kind: Kind, target: Target, p: PatchRecord)
    requires ValidSections(secs) && cur < |secs| && Recordable(kind) && (kind.Slot? ==> target.ToExtern?)
    requires p.offset == |secs[cur].buf| && p.kind == if kind.Slot? then kind.field else kind
    ensures var more := SectionsFor(secs[cur := AppendBytes(secs[cur], Zeros(Size(kind)))], slots, kind, target);
      cur < |more| && Tidy(secs, more[cur := AppendPatch(more[cur], p)], cur)
  {
    hide Grown, Section.Valid, GrownAll, Framed, SlotSections, Size, Sized, Template;
    var s := AppendBytes(secs[cur], Zeros(Size(kind)));
    var mid := secs[cur := s];
    ValidAt(secs, cur);
    GrownSection(secs[cur], Zeros(Size(kind)));
    GrownBytes(secs[cur], Zeros(Size(kind)));
    UpdateExtends(secs, cur, s);
    TidyUpdate(secs, cur, s);
    if kind.Slot? && target.extern.name !in slots {
      GrownSlots(mid, target.extern);
    } else {
      TidySelf(mid, cur);
    }
    FramedSlot(mid, slots, kind, target, cur);
    var more := SectionsFor(mid, slots, kind, target);
    TidyChain(secs, mid, more, cur);
    FieldGrown(secs[cur], more[cur], kind, p) by {
      GrownAllAt(secs, more, cur);
      GrownAllAt(mid, more, cur);
    }
    FieldTidy(secs, more, cur, p);
  }

  lemma GrownAllAt(secs: seq<Section>, more: seq<Section>, i: nat)
    requires GrownAll(secs, more) && i < |secs|
    ensures Grown(secs[i], more[i])
  {
  }

  lemma FieldGrown(s: Section, t: Section, kind: Kind, p: PatchRecord)
    requires s.Valid() && Recordable(kind) && Grown(s, t) && Grown(AppendBytes(s, Zeros(Size(kind))), t)
    requires p.offset == |s.buf| && p.kind == if kind.Slot? then kind.field else kind
    ensures Grown(s, AppendPatch(t, p))
  {
    assert Size(p.kind) == Size(kind) && Sized(p.kind) && !p.kind.Slot?;
    hide Size, Sized, Template, Clean, Section.Valid, Over;
    ZeroOver(s, t, p);
    GrownPatch(s, t, p);
  }

  lemma FieldTidy(secs: seq<Section>, more: seq<Section>, cur: nat, p: PatchRecord)
    requires Tidy(secs, more, cur) && cur < |secs| && Grown(secs[cur], AppendPatch(more[cur], p))
    ensures Tidy(secs, more[cur := AppendPatch(more[cur], p)], cur)
  {
    hide Clean;
  }

  lemma AppendNothing(s: Section)
    ensures AppendBytes(s, []) == s
  {
    assert s.buf + [] == s.buf;
  }

  lemma FramedUpdate(secs: seq<Section>, cur: nat, s: Section)
    requires cur < |secs| && s.name == secs[cur].name && secs[cur].align <= s.align
    requires secs[cur].buf <= s.buf && secs[cur].patches <= s.patches
    ensures Framed(secs, secs[cur := s], cur)
  {
  }

  lemma FramedSlot(secs: seq<Section>, slots: set<string>, kind: Kind, target: Target, cur: nat)
    requires ValidSections(secs) && cur < |secs| && (kind.Slot? ==> target.ToExtern?)
    ensures Framed(secs, SectionsFor(secs, slots, kind, target), cur)
    ensures cur < |SectionsFor(secs, slots, kind, target)|
  {
    if kind.Slot? && target.extern.name !in slots {
      SlotSectionsExtends(secs, target.extern);
    }
  }

  lemma NotedValid(s: Section)
    requires s.Valid()
    ensures s.(insns := true).Valid()
  {
    forall p | p in s.patches
      ensures s.(insns := true).Holds(p)
    {
      assert s.Holds(p);
    }
  }

  /** A field of an encoded instruction that the linker fills in, and whether rip is its origin. */
  datatype Fixup = Fixup(off: nat, kind: Kind, target: Target, addend: int, riprel: bool)

  /** A fixup as the encoder leaves it, whose target may be a string operand. */
  datatype Operand = Named(name: string) | Object(target: Target)
  {
    function Resolved(symbols: map<string, Label>, named: map<string, Label>): Target
      requires Named? ==> name in symbols || name in named
    {
      if Object? then target else ToLabel(if name in symbols then symbols[name] else named[name])
    }
  }

  datatype OperandFixup = OperandFixup(off: nat, kind: Kind, operand: Operand, addend: int, riprel: bool)
  {
    function Resolved(symbols: map<string, Label>, named: map<string, Label>): Fixup
      requires operand.Named? ==> operand.name in symbols || operand.name in named
    {
      Fixup(off, kind, operand.Resolved(symbols, named), addend, riprel)
    }
  }

  datatype WordPatch = WordPatch(kind: Kind, operand: Operand)

  /** What an encoder of instruction words makes: an EncodeError, or words and perhaps one patch over them. */
  datatype WordEncoding = Refused | Words(code: seq<Byte>, patch: Option<WordPatch>)

  /** The patch is over the whole start of the words, which leave its field zero. */
  predicate WordsOk(names: seq<string>, e: WordEncoding)
  {
    e.Words? && e.patch.Some? ==>
      && var p := e.patch.value;
      && Sized(p.kind) && !p.kind.Slot? && Size(p.kind) <= |e.code| && Template(p.kind, e.code[..Size(p.kind)])
      && (p.operand.Named? ==> p.operand.name in names)
  }

  predicate NamesKnown(e: WordEncoding, symbols: map<string, Label>, named: map<string, Label>)
  {
    e.Words? && (e.patch.Some? && e.patch.value.operand.Named? ==>
      e.patch.value.operand.name in symbols || e.patch.value.operand.name in named)
  }

  /** A section after an instruction of words. */
  function WithWords(s: Section, e: WordEncoding, symbols: map<string, Label>, named: map<string, Label>): Section
    requires NamesKnown(e, symbols, named)
  {
    var t := AppendBytes(s, e.code);
    var u := if e.patch.None? then t
             else AppendPatch(t, PatchRecord(|s.buf|, e.patch.value.kind,
                                             e.patch.value.operand.Resolved(symbols, named), 0));
    u.(insns := true)
  }

  lemma WordsAre(s: Section, e: WordEncoding, symbols: map<string, Label>, named: map<string, Label>)
    requires NamesKnown(e, symbols, named) && e.Words?
    ensures WithWords(s, e, symbols, named) == s.(
      buf := s.buf + e.code, insns := true,
      patches := s.patches + match e.patch
                   case None => []
                   case Some(p) => [PatchRecord(|s.buf|, p.kind, p.operand.Resolved(symbols, named), 0)])
  {
  }

  lemma WordsTidy(secs: seq<Section>, cur: nat, names: seq<string>, e: WordEncoding,
                  symbols: map<string, Label>, named: map<string, Label>)
    requires ValidSections(secs) && cur < |secs| && e.Words? && WordsOk(names, e)
    requires forall n | n in names :: n in symbols || n in named
    ensures Tidy(secs, secs[cur := WithWords(secs[cur], e, symbols, named)], cur)
  {
    hide Size, Sized, Template, Tidy, Clean;
    var s := secs[cur];
    ValidAt(secs, cur);
    var t := AppendBytes(s, e.code);
    GrownBytes(s, e.code);
    if e.patch.Some? {
      var p := PatchRecord(|s.buf|, e.patch.value.kind, e.patch.value.operand.Resolved(symbols, named), 0);
      assert t.buf[p.offset..p.offset + Size(p.kind)] == e.code[..Size(p.kind)];
      assert Over(t, p);
      GrownPatch(s, t, p);
    }
    var u := WithWords(s, e, symbols, named);
    assert Grown(s, u) by { GrownNoted(s, u.(insns := s.insns)); }
    TidyUpdate(secs, cur, u);
  }

  lemma GrownNoted(a: Section, b: Section)
    requires Grown(a, b)
    ensures Grown(a, b.(insns := true))
  {
  }

  /** What an encoder makes of an instruction: an EncodeError, or bytes with fixups. */
  datatype Encoding = Rejected | Encoded(code: seq<Byte>, fixups: seq<OperandFixup>)
  {
    function Fixups(symbols: map<string, Label>, named: map<string, Label>): seq<Fixup>
      requires Encoded?
      requires forall f | f in fixups && f.operand.Named? :: f.operand.name in symbols || f.operand.name in named
    {
      seq(|fixups|, k requires 0 <= k < |fixups| => fixups[k].Resolved(symbols, named))
    }
  }

  /** In order, over zero bytes of the instruction, slots for externs only, names among the operands. */
  predicate EncodingOk(names: seq<string>, e: Encoding)
  {
    e.Encoded? ==>
      && (forall f | f in e.fixups ::
            && Recordable(f.kind) && (f.kind.Slot? ==> f.operand.Object? && f.operand.target.ToExtern?)
            && f.off + Size(f.kind) <= |e.code| && e.code[f.off..f.off + Size(f.kind)] == Zeros(Size(f.kind))
            && (f.operand.Named? ==> f.operand.name in names))
      && (forall j, k | 0 <= j < k < |e.fixups| :: e.fixups[j].off + Size(e.fixups[j].kind) <= e.fixups[k].off)
  }

  lemma FixupsResolved(e: Encoding, symbols: map<string, Label>, named: map<string, Label>, names: seq<string>)
    requires e.Encoded? && EncodingOk(names, e) && forall n | n in names :: n in symbols || n in named
    ensures forall f | f in e.fixups && f.operand.Named? :: f.operand.name in symbols || f.operand.name in named
    ensures FixupsOk(e.code, e.Fixups(symbols, named))
  {
    forall k | 0 <= k < |e.fixups|
      ensures FixupOk(e.code, e.Fixups(symbols, named)[k])
    {
      assert e.fixups[k] in e.fixups;
    }
  }

  lemma {:induction false} WithoutMiddle(front: seq<string>, key: string, rest: seq<string>)
    requires DistinctKeys(front + [key] + rest)
    ensures Without(front + [key] + rest, key) == front + rest
  {
    var all := front + [key] + rest;
    if front == [] {
      assert all[1..] == rest;
    } else {
      assert all[1..] == front[1..] + [key] + rest;
      assert all[|front|] == key;
      WithoutMiddle(front[1..], key, rest);
      assert [front[0]] + (front[1..] + rest) == front + rest;
    }
  }

  /** `cmp qword[rip + f], n` at the start of the externs section, where f has no slot yet. */
  function CompareWith(n: Byte): seq<Byte>
  {
    [0x48, 0x83, 0x3D, 0, 0, 0, 0, n]
  }

  /**
    With immediate 5, the slot that the fixup asks for lands between displacement and immediate. With
    immediate 0 the one byte of padding before the slot is that immediate, and the instruction is whole.
   */
  lemma SplitByItsSlot(f: Extern, slot: Label)
    ensures var fixups := [Fixup(3, Slot(Rel(4)), ToExtern(f), 0, true)];
      var s, slots := NewSection("externs", 8), map[f.name := slot];
      && FixupsOk(CompareWith(5), fixups) && FixupsOk(CompareWith(0), fixups) && Requested(fixups, slots)
      && AfterFlush(s, {}, slots, CompareWith(5), fixups).buf == [0x48, 0x83, 0x3D, 0, 0, 0, 0] + Zeros(9) + [5]
      && !Whole(s, AfterFlush(s, {}, slots, CompareWith(5), fixups), slots, CompareWith(5), fixups)
      && AfterFlush(s, {}, slots, CompareWith(0), fixups).buf == CompareWith(0) + Zeros(9)
      && Whole(s, AfterFlush(s, {}, slots, CompareWith(0), fixups), slots, CompareWith(0), fixups)
  {
    CompareFlushed(f, slot, 5);
    CompareFlushed(f, slot, 0);
    assert [0x48, 0x83, 0x3D, 0, 0, 0, 0] + Zeros(9) + [0] == CompareWith(0) + Zeros(9);
  }

  lemma CompareFlushed(f: Extern, slot: Label, n: Byte)
    ensures var fixups := [Fixup(3, Slot(Rel(4)), ToExtern(f), 0, true)];
      var s, slots, code := NewSection("externs", 8), map[f.name := slot], CompareWith(n);
      && FixupsOk(code, fixups) && Requested(fixups, slots)
      && AfterFlush(s, {}, slots, code, fixups).buf == [0x48, 0x83, 0x3D, 0, 0, 0, 0] + Zeros(9) + [n]
      && (Whole(s, AfterFlush(s, {}, slots, code, fixups), slots, code, fixups) <==> n == 0)
  {
    var fixup := Fixup(3, Slot(Rel(4)), ToExtern(f), 0, true);
    var s, slots, code := NewSection("externs", 8), map[f.name := slot], CompareWith(n);
    assert code[3..7] == Zeros(4) && code[..3] == [0x48, 0x83, 0x3D] && code[7..] == [n];
    assert [fixup][..0] == [] && NewSlot([fixup][0], {}) && FirstNew([fixup], {}) == 0;
    WholeExactly(s, {}, slots, code, [fixup]);
    hide Whole, Within;
    CompareBytes(s, f, slots, n, fixup);
    CompareIntact(n, fixup);
  }

  lemma CompareBytes(s: Section, f: Extern, slots: map<string, Label>, n: Byte, fixup: Fixup)
    requires s == NewSection("externs", 8) && fixup == Fixup(3, Slot(Rel(4)), ToExtern(f), 0, true) && f.name in slots
    requires FixupsOk(CompareWith(n), [fixup]) && Requested([fixup], slots)
    ensures AfterFlush(s, {}, slots, CompareWith(n), [fixup]).buf == [0x48, 0x83, 0x3D, 0, 0, 0, 0] + Zeros(9) + [n]
  {
    var code := CompareWith(n);
    assert [fixup][..0] == [];
    FlushedUnfold(s, {}, slots, code, [fixup]);
    var before := AppendBytes(s, code[0..3]);
    assert before.buf == [0x48, 0x83, 0x3D];
    assert FlushedTo(s, {}, slots, code, [fixup]) == WithFixup(before, fixup, {} + SlotNames([]), slots, 8);
    hide FlushedTo;
    var field := AppendBytes(before, Zeros(4));
    assert |field.buf| == 7 && SlotPad(7) == Zeros(1);
    assert Zeros(1) + Zeros(8) == Zeros(9);
    assert field.buf == [0x48, 0x83, 0x3D, 0, 0, 0, 0];
    assert code[7..] == [n];
  }

  lemma CompareIntact(n: Byte, fixup: Fixup)
    requires fixup.off == 3 && fixup.kind == Slot(Rel(4)) && fixup.target.ToExtern?
    ensures Intact("externs", 0, {}, CompareWith(n), [fixup]) <==> n == 0
  {
    var code := CompareWith(n);
    assert [fixup][..0] == [] && NewSlot([fixup][0], {}) && FirstNew([fixup], {}) == 0;
    assert code[7..] == [n] && Zeros(1)[0] == 0;
    assert n == 0 ==> code[7..] == Zeros(1);
  }

  /** REL32 counts from the end of the field, rip from the end of the instruction. */
  function Adjusted(f: Fixup, total: nat): int
  {
    if f.riprel then f.addend - (total - (f.off + Size(f.kind))) else f.addend
  }

  predicate FixupOk(code: seq<Byte>, f: Fixup)
  {
    && Recordable(f.kind) && (f.kind.Slot? ==> f.target.ToExtern?)
    && f.off + Size(f.kind) <= |code| && code[f.off..f.off + Size(f.kind)] == Zeros(Size(f.kind))
  }

  /** As the x64 encoder leaves them: in order, over zero bytes of the instruction. */
  predicate FixupsOk(code: seq<Byte>, fixups: seq<Fixup>)
  {
    && (forall k | 0 <= k < |fixups| :: FixupOk(code, fixups[k]))
    && (forall j, k | 0 <= j < k < |fixups| :: fixups[j].off + Size(fixups[j].kind) <= fixups[k].off)
  }

  predicate NewSlot(f: Fixup, slots: set<string>)
  {
    f.kind.Slot? && f.target.ToExtern? && f.target.extern.name !in slots
  }

  /** The first fixup that makes a new slot, or their number if none does. */
  function FirstNew(fixups: seq<Fixup>, slots: set<string>): (k: nat)
    ensures k <= |fixups| && (k < |fixups| ==> NewSlot(fixups[k], slots))
    ensures forall i | 0 <= i < k :: !NewSlot(fixups[i], slots)
  {
    if fixups == [] then 0
    else
      var k := FirstNew(fixups[..|fixups| - 1], slots);
      if k < |fixups| - 1 || NewSlot(fixups[|fixups| - 1], slots) then k else |fixups|
  }

  /** Some fixup makes a slot in the section where the instruction is. */
  predicate OwnSlots(section: string, slots: set<string>, fixups: seq<Fixup>)
  {
    section == "externs" && FirstNew(fixups, slots) < |fixups|
  }

  function FieldEnd(f: Fixup): nat
  {
    f.off + Size(f.kind)
  }

  function LastEnd(fixups: seq<Fixup>): nat
  {
    if fixups == [] then 0 else FieldEnd(fixups[|fixups| - 1])
  }

  predicate Requested(fixups: seq<Fixup>, slots: map<string, Label>)
  {
    forall f | f in fixups && f.kind.Slot? :: f.target.ToExtern? && f.target.extern.name in slots
  }

  /** A section once a flush has emitted the instruction up to the end of its last fixup. */
  function FlushedTo(s: Section, keys: set<string>, slots: map<string, Label>, code: seq<Byte>, fixups: seq<Fixup>)
    : Section
    requires FixupsOk(code, fixups) && Requested(fixups, slots)
    decreases |fixups|
  {
    if fixups == [] then s
    else
      var front, f := fixups[..|fixups| - 1], fixups[|fixups| - 1];
      LastFixup(code, fixups);
      var before := AppendBytes(FlushedTo(s, keys, slots, code, front), code[LastEnd(front)..f.off]);
      WithFixup(before, f, keys + SlotNames(front), slots, |code|)
  }

  /** A section after a flush, given the slots there were and those there are now. */
  function AfterFlush(s: Section, keys: set<string>, slots: map<string, Label>, code: seq<Byte>, fixups: seq<Fixup>)
    : Section
    requires FixupsOk(code, fixups) && Requested(fixups, slots)
  {
    LastFixup(code, fixups);
    AppendBytes(FlushedTo(s, keys, slots, code, fixups), code[LastEnd(fixups)..]).(insns := true)
  }

  lemma FlushStarts(s: Section, keys: set<string>, slots: map<string, Label>, code: seq<Byte>, fixups: seq<Fixup>)
    requires FixupsOk(code, fixups) && slots.Keys == keys
    ensures FixupsOk(code, fixups[..0]) && Requested(fixups[..0], slots) && LastEnd(fixups[..0]) == 0
    ensures keys + SlotNames(fixups[..0]) == keys && FlushedTo(s, keys, slots, code, fixups[..0]) == s
  {
  }

  lemma LastFixup(code: seq<Byte>, fixups: seq<Fixup>)
    requires FixupsOk(code, fixups)
    ensures LastEnd(fixups) <= |code|
    ensures fixups != [] ==>
      && var front, f := fixups[..|fixups| - 1], fixups[|fixups| - 1];
      && FixupsOk(code, front) && FixupOk(code, f) && LastEnd(front) <= f.off && FieldEnd(f) <= |code|
  {
    hide FixupOk;
    if fixups != [] {
      var n := |fixups| - 1;
      assert FixupOk(code, fixups[n]);
      FixupBounds(code, fixups[n]);
      assert n > 0 ==> FieldEnd(fixups[n - 1]) <= fixups[n].off;
    }
  }

  lemma FixupBounds(code: seq<Byte>, f: Fixup)
    requires FixupOk(code, f)
    ensures f.off < FieldEnd(f) <= |code| && Sized(f.kind)
  {
    SizePositive(f.kind);
  }

  /** The patches that lie before `end`. */
  function Within(patches: seq<PatchRecord>, end: nat): seq<PatchRecord>
  {
    if patches == [] then []
    else
      var last := patches[|patches| - 1];
      Within(patches[..|patches| - 1], end) + if last.offset < end then [last] else []
  }

  /**
    The instruction directly follows what was there, and the new patches that start before its end are
    those of its fixups, in their order.
   */
  predicate Whole(s: Section, now: Section, slots: map<string, Label>, code: seq<Byte>, fixups: seq<Fixup>)
    requires Requested(fixups, slots)
  {
    s.buf + code <= now.buf && NewWithin(s, now, |s.buf| + |code|, Records(fixups, slots, |s.buf|, |code|))
  }

  /** The new patches that start before `end` are these. */
  predicate NewWithin(s: Section, now: Section, end: nat, patches: seq<PatchRecord>)
  {
    s.patches <= now.patches && Within(now.patches[|s.patches|..], end) == patches
  }

  /**
    No fixup makes a slot in the way: none at all in this section, or only the last one does, and the
    bytes after its field are zeros that the padding before the slot stands for.
   */
  predicate Intact(section: string, at: nat, slots: set<string>, code: seq<Byte>, fixups: seq<Fixup>)
  {
    OwnSlots(section, slots, fixups) ==>
      && var k := FirstNew(fixups, slots);
      && var end := FieldEnd(fixups[k]);
      && k == |fixups| - 1 && end <= |code| <= end + |SlotPad(at + end)|
      && code[end..] == Zeros(|code| - end)
  }

  /** An extern's slot was emitted with at least `rest` bytes after it. */
  ghost predicate SlotBefore(s: Section, now: Section, rest: nat)
  {
    exists p :: p in now.patches && p.kind == Abs(8) && p.target.ToExtern?
      && |s.buf| < p.offset && p.offset + 8 + rest <= |now.buf|
  }

  // ----- What a flush leaves -----

  lemma {:induction false} SlotsKeep(s: Section, keys: set<string>, slots: map<string, Label>,
                                     slots': map<string, Label>,
                                     code: seq<Byte>, fixups: seq<Fixup>)
    requires FixupsOk(code, fixups) && Requested(fixups, slots)
    requires forall n | n in slots :: n in slots' && slots'[n] == slots[n]
    ensures Requested(fixups, slots')
    ensures FlushedTo(s, keys, slots', code, fixups) == FlushedTo(s, keys, slots, code, fixups)
    decreases |fixups|
  {
    if fixups != [] {
      LastFixup(code, fixups);
      hide FixupsOk, FixupOk, SlotNames, OwnSlot, WithSlot;
      assert fixups[|fixups| - 1] in fixups;
      SlotsKeep(s, keys, slots, slots', code, fixups[..|fixups| - 1]);
    }
  }

  /** One turn of the loop in `flush`. */
  lemma FlushTurn(s: Section, keys: set<string>, slots: map<string, Label>, slots': map<string, Label>,
                  code: seq<Byte>, fixups: seq<Fixup>)
    requires FixupsOk(code, fixups) && fixups != [] && Requested(fixups[..|fixups| - 1], slots)
    requires slots.Keys == keys + SlotNames(fixups[..|fixups| - 1])
    requires slots'.Keys == slots.Keys + SlotNames([fixups[|fixups| - 1]])
    requires forall n | n in slots :: slots'[n] == slots[n]
    ensures slots'.Keys == keys + SlotNames(fixups) && Requested(fixups, slots')
    ensures var front, f := fixups[..|fixups| - 1], fixups[|fixups| - 1];
      && FixupsOk(code, front) && LastEnd(front) <= f.off && FieldEnd(f) <= |code|
      && (f.kind.Slot? ==> f.target.ToExtern? && f.target.extern.name in slots')
      && FlushedTo(s, keys, slots', code, fixups)
         == WithFixup(AppendBytes(FlushedTo(s, keys, slots, code, front), code[LastEnd(front)..f.off]), f, slots.Keys,
                      slots', |code|)
  {
    var front, f := fixups[..|fixups| - 1], fixups[|fixups| - 1];
    TurnNames(code, keys, slots, slots', front, f);
    assert fixups == front + [f];
    hide FixupsOk, FixupOk, SlotNames, WithFixup, Requested, FlushedTo, LastEnd;
    FlushedUnfold(s, keys, slots', code, fixups);
    SlotsKeep(s, keys, slots, slots', code, front);
    LastFixup(code, fixups);
  }

  lemma TurnNames(code: seq<Byte>, keys: set<string>, slots: map<string, Label>, slots': map<string, Label>,
                  front: seq<Fixup>, f: Fixup)
    requires FixupsOk(code, front + [f]) && Requested(front, slots) && slots.Keys == keys + SlotNames(front)
    requires slots'.Keys == slots.Keys + SlotNames([f])
    ensures slots'.Keys == keys + SlotNames(front + [f]) && Requested(front + [f], slots')
    ensures forall n | n in slots :: n in slots'
  {
    assert FixupOk(code, (front + [f])[|front|]);
    SlotNamesSplit(front, f);
    RequestedNext(front, slots, slots', f);
  }

  lemma RequestedNext(done: seq<Fixup>, slots: map<string, Label>, slots': map<string, Label>, f: Fixup)
    requires Requested(done, slots) && (f.kind.Slot? ==> f.target.ToExtern? && f.target.extern.name in slots')
    requires forall n | n in slots :: n in slots'
    ensures Requested(done + [f], slots')
  {
  }

  /** Without a slot of its own in the way, bytes and patches come one after the other. */
  lemma {:induction false} FlushedPlain(s: Section, keys: set<string>, slots: map<string, Label>, code: seq<Byte>,
                                        fixups: seq<Fixup>)
    requires FixupsOk(code, fixups) && Requested(fixups, slots) && !OwnSlots(s.name, keys, fixups)
    ensures LastEnd(fixups) <= |code|
    ensures var now := FlushedTo(s, keys, slots, code, fixups);
      && now.name == s.name && now.buf == s.buf + code[..LastEnd(fixups)]
      && now.patches == s.patches + Records(fixups, slots, |s.buf|, |code|)
    decreases |fixups|
  {
    LastFixup(code, fixups);
    if fixups == [] {
      assert s.buf + code[..0] == s.buf;
      assert s.patches + [] == s.patches;
    } else {
      var front, f := fixups[..|fixups| - 1], fixups[|fixups| - 1];
      assert fixups == front + [f] && f in fixups;
      hide FixupsOk;
      FlushedPlain(s, keys, slots, code, front);
      PlainStep(s, FlushedTo(s, keys, slots, code, front), keys, slots, code, front, f);
    }
  }

  lemma PlainStep(s: Section, now: Section, keys: set<string>, slots: map<string, Label>, code: seq<Byte>,
                  front: seq<Fixup>, f: Fixup)
    requires Requested(front, slots) && Requested(front + [f], slots) && FixupOk(code, f)
    requires LastEnd(front) <= f.off && f in front + [f]
    requires !(s.name == "externs" && NewSlot(f, keys)) && now.name == s.name
    requires now.buf == s.buf + code[..LastEnd(front)]
    requires now.patches == s.patches + Records(front, slots, |s.buf|, |code|)
    ensures var gap := AppendBytes(now, code[LastEnd(front)..f.off]);
      var next := WithFixup(gap, f, keys + SlotNames(front), slots, |code|);
      && next.name == s.name && next.buf == s.buf + code[..FieldEnd(f)]
      && next.patches == s.patches + Records(front + [f], slots, |s.buf|, |code|)
  {
    var gap := AppendBytes(now, code[LastEnd(front)..f.off]);
    assert code[..LastEnd(front)] + code[LastEnd(front)..f.off] == code[..f.off];
    assert code[..f.off] + code[f.off..FieldEnd(f)] == code[..FieldEnd(f)];
    assert gap.buf == s.buf + code[..f.off];
    hide Size, SlotNames, RecordAt, LastEnd;
    assert Records(front + [f], slots, |s.buf|, |code|)
        == Records(front, slots, |s.buf|, |code|) + [RecordOf(f, slots, |s.buf|, |code|)];
  }

  // ----- With a slot of its own -----

  /** Fixup k asks for a slot that there is by now. */
  predicate Own(code: seq<Byte>, fixups: seq<Fixup>, slots: map<string, Label>, k: nat)
  {
    && k < |fixups| && Requested(fixups, slots) && Requested(fixups[..k], slots) && fixups[k] in fixups
    && fixups[k].kind.Slot? && fixups[k].target.ToExtern? && fixups[k].target.extern.name in slots
    && Sized(fixups[k].kind) && 0 < FieldEnd(fixups[k]) <= |code|
  }

  /** Where the slot of an own fixup starts, and the patch over it. */
  function SlotAt(s: Section, f: Fixup): nat
  {
    |s.buf| + FieldEnd(f) + |SlotPad(|s.buf| + FieldEnd(f))|
  }

  function SlotRecord(s: Section, f: Fixup): PatchRecord
    requires f.target.ToExtern?
  {
    PatchRecord(SlotAt(s, f), Abs(8), ToExtern(f.target.extern), 0)
  }

  /** The bytes up to the end of the slot that fixup k makes. */
  function SlotBytes(s: Section, code: seq<Byte>, f: Fixup): seq<Byte>
    requires FieldEnd(f) <= |code|
  {
    s.buf + code[..FieldEnd(f)] + SlotPad(|s.buf| + FieldEnd(f)) + Zeros(8)
  }

  /** Fixup k made a slot: its bytes and patches come first, and what follows lies after the slot. */
  predicate Formed(s: Section, now: Section, slots: map<string, Label>, code: seq<Byte>, fixups: seq<Fixup>, k: nat)
    requires Own(code, fixups, slots, k)
  {
    var f, end := fixups[k], SlotAt(s, fixups[k]) + 8;
    var first := s.patches + Records(fixups[..k], slots, |s.buf|, |code|)
                 + [SlotRecord(s, f), RecordOf(f, slots, |s.buf|, |code|)];
    && now.name == s.name && SlotBytes(s, code, f) <= now.buf && first <= now.patches
    && (forall i | |first| <= i < |now.patches| :: end <= now.patches[i].offset)
    && end + LastEnd(fixups) <= |now.buf| + FieldEnd(f)
    && (k == |fixups| - 1 ==> now.buf == SlotBytes(s, code, f) && now.patches == first)
  }

  lemma SlotBytesEnd(s: Section, code: seq<Byte>, f: Fixup)
    requires FieldEnd(f) <= |code|
    ensures |SlotBytes(s, code, f)| == SlotAt(s, f) + 8
  {
  }

  lemma FormedReady(code: seq<Byte>, fixups: seq<Fixup>, keys: set<string>, slots: map<string, Label>)
    requires FixupsOk(code, fixups) && Requested(fixups, slots) && FirstNew(fixups, keys) < |fixups|
    ensures var k := FirstNew(fixups, keys);
      && Own(code, fixups, slots, k) && FieldEnd(fixups[k]) <= LastEnd(fixups) <= |code|
      && (k < |fixups| - 1 ==> FieldEnd(fixups[k]) <= fixups[|fixups| - 1].off)
  {
    var k := FirstNew(fixups, keys);
    FixupAt(code, fixups, k);
    FixupAt(code, fixups, |fixups| - 1);
    assert fixups[k] in fixups;
    FixupBounds(code, fixups[k]);
    FixupBounds(code, fixups[|fixups| - 1]);
  }

  /** A fixup only appends, and its patches lie after what was there. */
  lemma WithFixupAfter(now: Section, f: Fixup, before: set<string>, slots: map<string, Label>, total: nat)
    requires f.kind.Slot? ==> f.target.ToExtern? && f.target.extern.name in slots
    ensures var next := WithFixup(now, f, before, slots, total);
      && next.name == now.name && now.buf <= next.buf && |now.buf| + Size(f.kind) <= |next.buf|
      && now.patches <= next.patches
      && forall i | |now.patches| <= i < |next.patches| :: |now.buf| <= next.patches[i].offset
  {
    hide Size;
  }

  lemma {:induction false} FlushedFormed(s: Section, keys: set<string>, slots: map<string, Label>, code: seq<Byte>,
                                         fixups: seq<Fixup>)
    requires FixupsOk(code, fixups) && Requested(fixups, slots) && OwnSlots(s.name, keys, fixups)
    ensures var k := FirstNew(fixups, keys);
      Own(code, fixups, slots, k) && Formed(s, FlushedTo(s, keys, slots, code, fixups), slots, code, fixups, k)
    decreases |fixups|
  {
    hide FlushedTo, FixupsOk, FixupOk, Formed, WithFixup, Own, LastEnd, FieldEnd, Records, Requested, SlotNames;
    FormedReady(code, fixups, keys, slots);
    LastFixup(code, fixups);
    var n := |fixups| - 1;
    var front, f := fixups[..n], fixups[n];
    FlushedUnfold(s, keys, slots, code, fixups);
    assert FirstNew(fixups, keys) == FirstNew(front, keys);
    hide FirstNew;
    if FirstNew(front, keys) < n {
      FlushedFormed(s, keys, slots, code, front);
      FormedFront(code, fixups, keys, slots);
      FormedLater(s, FlushedTo(s, keys, slots, code, front), keys, slots, code, fixups, FirstNew(front, keys));
    } else {
      FlushedPlain(s, keys, slots, code, front);
      NoOwnSlots(keys, front);
      FormedNow(s, FlushedTo(s, keys, slots, code, front), keys, slots, code, fixups);
    }
  }

  lemma FlushedUnfold(s: Section, keys: set<string>, slots: map<string, Label>, code: seq<Byte>, fixups: seq<Fixup>)
    requires FixupsOk(code, fixups) && Requested(fixups, slots) && fixups != []
    ensures var front, f := fixups[..|fixups| - 1], fixups[|fixups| - 1];
      && FixupsOk(code, front) && Requested(front, slots) && LastEnd(front) <= f.off <= |code|
      && (f.kind.Slot? ==> f.target.ToExtern? && f.target.extern.name in slots)
      && FlushedTo(s, keys, slots, code, fixups)
         == WithFixup(AppendBytes(FlushedTo(s, keys, slots, code, front), code[LastEnd(front)..f.off]), f,
                      keys + SlotNames(front), slots, |code|)
  {
    LastFixup(code, fixups);
    hide FixupsOk, FixupOk, WithFixup, SlotNames, LastEnd;
    assert fixups[|fixups| - 1] in fixups;
  }

  lemma FormedFront(code: seq<Byte>, fixups: seq<Fixup>, keys: set<string>, slots: map<string, Label>)
    requires FixupsOk(code, fixups) && Requested(fixups, slots) && FirstNew(fixups, keys) < |fixups| - 1
    ensures Own(code, fixups, slots, FirstNew(fixups, keys))
    ensures FieldEnd(fixups[FirstNew(fixups, keys)]) <= LastEnd(fixups[..|fixups| - 1])
    ensures LastEnd(fixups[..|fixups| - 1]) <= fixups[|fixups| - 1].off <= |code|
    ensures fixups[..|fixups| - 1][..FirstNew(fixups, keys)] == fixups[..FirstNew(fixups, keys)]
  {
    FormedReady(code, fixups, keys, slots);
    LastFixup(code, fixups);
    var front := fixups[..|fixups| - 1];
    assert FirstNew(front, keys) == FirstNew(fixups, keys);
    FormedReady(code, front, keys, slots);
  }

  lemma FormedLater(s: Section, now: Section, keys: set<string>, slots: map<string, Label>, code: seq<Byte>,
                    fixups: seq<Fixup>, k: nat)
    requires k < |fixups| - 1 && Own(code, fixups, slots, k) && Own(code, fixups[..|fixups| - 1], slots, k)
    requires FieldEnd(fixups[k]) <= LastEnd(fixups[..|fixups| - 1]) <= fixups[|fixups| - 1].off <= |code|
    requires fixups[..|fixups| - 1][..k] == fixups[..k] && Formed(s, now, slots, code, fixups[..|fixups| - 1], k)
    requires fixups[|fixups| - 1].kind.Slot? ==>
      fixups[|fixups| - 1].target.ToExtern? && fixups[|fixups| - 1].target.extern.name in slots
    ensures var front, f := fixups[..|fixups| - 1], fixups[|fixups| - 1];
      Formed(s, WithFixup(AppendBytes(now, code[LastEnd(front)..f.off]), f, keys + SlotNames(front), slots, |code|),
             slots, code, fixups, k)
  {
    var front, f := fixups[..|fixups| - 1], fixups[|fixups| - 1];
    var gap := AppendBytes(now, code[LastEnd(front)..f.off]);
    WithFixupAfter(gap, f, keys + SlotNames(front), slots, |code|);
    SlotBytesEnd(s, code, fixups[k]);
    hide WithFixup, SlotNames, Size, SlotBytes, SlotAt, Records, RecordOf, SlotPad;
  }

  lemma FormedNow(s: Section, now: Section, keys: set<string>, slots: map<string, Label>, code: seq<Byte>,
                  fixups: seq<Fixup>)
    requires fixups != [] && Own(code, fixups, slots, |fixups| - 1) && FixupOk(code, fixups[|fixups| - 1])
    requires LastEnd(fixups[..|fixups| - 1]) <= fixups[|fixups| - 1].off
    requires s.name == "externs" && NewSlot(fixups[|fixups| - 1], keys) && SlotNames(fixups[..|fixups| - 1]) <= keys
    requires now.name == s.name && now.buf == s.buf + code[..LastEnd(fixups[..|fixups| - 1])]
    requires now.patches == s.patches + Records(fixups[..|fixups| - 1], slots, |s.buf|, |code|)
    ensures var front, f := fixups[..|fixups| - 1], fixups[|fixups| - 1];
      Formed(s, WithFixup(AppendBytes(now, code[LastEnd(front)..f.off]), f, keys + SlotNames(front), slots, |code|),
             slots, code, fixups, |fixups| - 1)
  {
    var front, f := fixups[..|fixups| - 1], fixups[|fixups| - 1];
    var gap := AppendBytes(now, code[LastEnd(front)..f.off]);
    assert code[..LastEnd(front)] + code[LastEnd(front)..f.off] == code[..f.off];
    assert code[..f.off] + code[f.off..FieldEnd(f)] == code[..FieldEnd(f)];
    assert gap.buf == s.buf + code[..f.off];
    assert gap.buf + Zeros(Size(f.kind)) == s.buf + code[..FieldEnd(f)];
    assert keys + SlotNames(front) == keys;
    SlotBytesEnd(s, code, f);
    hide Size, SlotNames, RecordAt, Records, SlotPad;
  }

  // ----- Whole instructions -----

  lemma {:induction false} WithinConcat(a: seq<PatchRecord>, b: seq<PatchRecord>, end: nat)
    ensures Within(a + b, end) == Within(a, end) + Within(b, end)
  {
    if b == [] {
      assert a + b == a;
    } else {
      assert (a + b)[..|a + b| - 1] == a + b[..|b| - 1];
      WithinConcat(a, b[..|b| - 1], end);
    }
  }

  lemma {:induction false} WithinAll(patches: seq<PatchRecord>, end: nat)
    ensures (forall p | p in patches :: p.offset < end) ==> Within(patches, end) == patches
    ensures (forall p | p in patches :: end <= p.offset) ==> Within(patches, end) == []
  {
    if patches != [] {
      WithinAll(patches[..|patches| - 1], end);
      assert patches == patches[..|patches| - 1] + [patches[|patches| - 1]];
    }
  }

  lemma RecordsInside(code: seq<Byte>, fixups: seq<Fixup>, slots: map<string, Label>, start: nat)
    requires FixupsOk(code, fixups) && Requested(fixups, slots)
    ensures forall p | p in Records(fixups, slots, start, |code|) :: p.offset < start + |code|
  {
    var records := Records(fixups, slots, start, |code|);
    forall p | p in records
      ensures p.offset < start + |code|
    {
      var k :| 0 <= k < |records| && records[k] == p;
      FixupBounds(code, fixups[k]);
    }
  }

  /** A flushed instruction is whole exactly if no fixup makes a slot in the way. */
  lemma WholeExactly(s: Section, keys: set<string>, slots: map<string, Label>, code: seq<Byte>, fixups: seq<Fixup>)
    requires FixupsOk(code, fixups) && Requested(fixups, slots)
    ensures Whole(s, AfterFlush(s, keys, slots, code, fixups), slots, code, fixups)
       <==> Intact(s.name, |s.buf|, keys, code, fixups)
  {
    LastFixup(code, fixups);
    var now := AfterFlush(s, keys, slots, code, fixups);
    hide FlushedTo, Intact, FixupsOk;
    if OwnSlots(s.name, keys, fixups) {
      FlushedFormed(s, keys, slots, code, fixups);
      OwnWhole(s, FlushedTo(s, keys, slots, code, fixups), keys, slots, code, fixups);
    } else {
      FlushedPlain(s, keys, slots, code, fixups);
      PlainWhole(s, now, slots, code, fixups);
      assert Intact(s.name, |s.buf|, keys, code, fixups) by { NotOwnIntact(s.name, |s.buf|, keys, code, fixups); }
    }
  }

  lemma NotOwnIntact(section: string, at: nat, keys: set<string>, code: seq<Byte>, fixups: seq<Fixup>)
    requires !OwnSlots(section, keys, fixups)
    ensures Intact(section, at, keys, code, fixups)
  {
  }

  lemma PlainWhole(s: Section, now: Section, slots: map<string, Label>, code: seq<Byte>, fixups: seq<Fixup>)
    requires FixupsOk(code, fixups) && Requested(fixups, slots) && LastEnd(fixups) <= |code|
    requires now.buf == s.buf + code[..LastEnd(fixups)] + code[LastEnd(fixups)..]
    requires now.patches == s.patches + Records(fixups, slots, |s.buf|, |code|)
    ensures now.buf == s.buf + code && Whole(s, now, slots, code, fixups)
  {
    hide FixupsOk, Records, LastEnd, Within, NewWithin, Requested;
    var records := Records(fixups, slots, |s.buf|, |code|);
    RecordsInside(code, fixups, slots, |s.buf|);
    Rejoined(s.buf, code, LastEnd(fixups));
    AllNew(s, now, records, |s.buf| + |code|);
  }

  lemma AllNew(s: Section, now: Section, records: seq<PatchRecord>, end: nat)
    requires now.patches == s.patches + records && forall p | p in records :: p.offset < end
    ensures NewWithin(s, now, end, records)
  {
    hide Within;
    WithinAll(records, end);
    assert now.patches[|s.patches|..] == records;
  }

  lemma OwnWhole(s: Section, flushed: Section, keys: set<string>, slots: map<string, Label>, code: seq<Byte>,
                 fixups: seq<Fixup>)
    requires FixupsOk(code, fixups) && Requested(fixups, slots) && OwnSlots(s.name, keys, fixups)
    requires LastEnd(fixups) <= |code| && FirstNew(fixups, keys) < |fixups|
    requires Own(code, fixups, slots, FirstNew(fixups, keys))
    requires Formed(s, flushed, slots, code, fixups, FirstNew(fixups, keys))
    ensures Whole(s, AppendBytes(flushed, code[LastEnd(fixups)..]).(insns := true), slots, code, fixups)
       <==> Intact(s.name, |s.buf|, keys, code, fixups)
  {
    var k := FirstNew(fixups, keys);
    var now, f := AppendBytes(flushed, code[LastEnd(fixups)..]).(insns := true), fixups[k];
    var more := flushed.patches[|s.patches| + k + 2..];
    assert |s.patches| + k + 2 <= |flushed.patches| && s.patches <= flushed.patches
        && SlotBytes(s, code, f) <= flushed.buf by { FormedSize(s, flushed, slots, code, fixups, k); }
    OwnWithin(s, flushed, slots, code, fixups, k);
    IntactIs(s.name, |s.buf|, keys, code, fixups);
    if SlotAt(s, f) < |s.buf| + |code| {
      hide Formed, FixupsOk, Records, Within, Whole, Intact, Own, SlotBytes, SlotPad, LastEnd, RecordOf, SlotRecord;
      OwnInside(s, now, slots, code, fixups, k, Within([RecordOf(f, slots, |s.buf|, |code|)] + more, |s.buf| + |code|));
    } else {
      PrefixMore(SlotBytes(s, code, f), flushed.buf, code[LastEnd(fixups)..]);
      hide Formed, FixupsOk, Records, Within, Whole, Intact, Own, SlotBytes, SlotPad, LastEnd, RecordOf, SlotRecord;
      OwnBytes(s, now, code, f);
      OwnAfter(s, now, slots, code, fixups, k);
    }
  }

  lemma OwnInside(s: Section, now: Section, slots: map<string, Label>, code: seq<Byte>, fixups: seq<Fixup>, k: nat,
                  rest: seq<PatchRecord>)
    requires Own(code, fixups, slots, k) && |s.patches| <= |now.patches|
    requires Within(now.patches[|s.patches|..], |s.buf| + |code|)
          == Records(fixups[..k], slots, |s.buf|, |code|) + [SlotRecord(s, fixups[k])] + rest
    ensures !Whole(s, now, slots, code, fixups)
  {
    hide Within, Records, SlotRecord, SlotPad, Size, Requested, Sized, FieldEnd, NewWithin, Whole;
    WholeIs(s, now, slots, code, fixups);
    SlotNoRecord(s, slots, code, fixups, k, rest);
    NotNew(s, now, |s.buf| + |code|, Records(fixups, slots, |s.buf|, |code|));
  }

  lemma WholeIs(s: Section, now: Section, slots: map<string, Label>, code: seq<Byte>, fixups: seq<Fixup>)
    requires Requested(fixups, slots)
    ensures Whole(s, now, slots, code, fixups)
       <==> s.buf + code <= now.buf && NewWithin(s, now, |s.buf| + |code|, Records(fixups, slots, |s.buf|, |code|))
  {
    hide NewWithin, Records, Requested;
  }

  lemma NotNew(s: Section, now: Section, end: nat, patches: seq<PatchRecord>)
    requires |s.patches| <= |now.patches| && Within(now.patches[|s.patches|..], end) != patches
    ensures !NewWithin(s, now, end, patches)
  {
    hide Within;
  }

  lemma OwnAfter(s: Section, now: Section, slots: map<string, Label>, code: seq<Byte>, fixups: seq<Fixup>, k: nat)
    requires Own(code, fixups, slots, k) && s.patches <= now.patches
    requires Within(now.patches[|s.patches|..], |s.buf| + |code|)
          == Records(fixups[..k], slots, |s.buf|, |code|) + [RecordOf(fixups[k], slots, |s.buf|, |code|)]
    ensures Whole(s, now, slots, code, fixups) <==> k == |fixups| - 1 && s.buf + code <= now.buf
  {
    hide Within, Records, RecordOf, Size, Requested, Sized, FieldEnd, NewWithin, Whole;
    WholeIs(s, now, slots, code, fixups);
    RecordsAll(slots, code, fixups, k, |s.buf|);
    var records := Records(fixups[..k], slots, |s.buf|, |code|) + [RecordOf(fixups[k], slots, |s.buf|, |code|)];
    NewOnce(s, now, |s.buf| + |code|, records, Records(fixups, slots, |s.buf|, |code|));
  }

  lemma NewOnce(s: Section, now: Section, end: nat, a: seq<PatchRecord>, b: seq<PatchRecord>)
    requires s.patches <= now.patches && Within(now.patches[|s.patches|..], end) == a
    ensures NewWithin(s, now, end, b) <==> a == b
  {
    hide Within;
  }

  lemma PrefixMore(a: seq<Byte>, b: seq<Byte>, c: seq<Byte>)
    requires a <= b
    ensures a <= b + c
  {
  }

  lemma FormedSize(s: Section, now: Section, slots: map<string, Label>, code: seq<Byte>, fixups: seq<Fixup>, k: nat)
    requires Own(code, fixups, slots, k) && Formed(s, now, slots, code, fixups, k)
    ensures |s.patches| + k + 2 <= |now.patches| && s.patches <= now.patches
    ensures SlotBytes(s, code, fixups[k]) <= now.buf
  {
    hide SlotBytes, RecordOf, SlotRecord, FieldEnd, Sized;
    PatchParts(s.patches, Records(fixups[..k], slots, |s.buf|, |code|), SlotRecord(s, fixups[k]),
               RecordOf(fixups[k], slots, |s.buf|, |code|), now.patches);
  }

  lemma PatchParts(a: seq<PatchRecord>, b: seq<PatchRecord>, x: PatchRecord, y: PatchRecord, all: seq<PatchRecord>)
    requires a + b + [x, y] <= all
    ensures |a| + |b| + 2 <= |all| && a <= all
    ensures all[|a|..] == b + [x] + ([y] + all[|a| + |b| + 2..])
  {
    var first := a + b + [x, y];
    assert all == first + all[|first|..];
  }

  lemma IntactIs(section: string, at: nat, keys: set<string>, code: seq<Byte>, fixups: seq<Fixup>)
    requires OwnSlots(section, keys, fixups) && FieldEnd(fixups[FirstNew(fixups, keys)]) <= |code|
    ensures var k := FirstNew(fixups, keys);
      var end := FieldEnd(fixups[k]);
      Intact(section, at, keys, code, fixups)
      <==> k == |fixups| - 1 && |code| <= end + |SlotPad(at + end)| && code[end..] == Zeros(|code| - end)
  {
    hide FieldEnd, SlotPad;
  }

  /** The new patches before the end of the instruction, after a flush with a slot of its own. */
  lemma OwnWithin(s: Section, now: Section, slots: map<string, Label>, code: seq<Byte>, fixups: seq<Fixup>, k: nat)
    requires FixupsOk(code, fixups) && Own(code, fixups, slots, k) && Formed(s, now, slots, code, fixups, k)
    ensures |s.patches| + k + 2 <= |now.patches| && s.patches <= now.patches
    ensures var f, end := fixups[k], |s.buf| + |code|;
      var rest := Within([RecordOf(f, slots, |s.buf|, |code|)] + now.patches[|s.patches| + k + 2..], end);
      && Within(now.patches[|s.patches|..], end)
         == Records(fixups[..k], slots, |s.buf|, |code|)
            + (if SlotAt(s, f) < end then [SlotRecord(s, f)] else []) + rest
      && (end <= SlotAt(s, f) ==> rest == [RecordOf(f, slots, |s.buf|, |code|)])
  {
    var f, end := fixups[k], |s.buf| + |code|;
    var records, slot := Records(fixups[..k], slots, |s.buf|, |code|), SlotRecord(s, f);
    var record := RecordOf(f, slots, |s.buf|, |code|);
    var more := now.patches[|s.patches| + k + 2..];
    FormedSize(s, now, slots, code, fixups, k);
    FixupAt(code, fixups, k);
    FixupBounds(code, f);
    PrefixOk(code, fixups, k);
    RecordsInside(code, fixups[..k], slots, |s.buf|);
    assert now.patches[|s.patches|..] == records + [slot] + ([record] + more)
        && (forall p | p in more :: SlotAt(s, f) + 8 <= p.offset) by { FormedParts(s, now, slots, code, fixups, k); }
    assert record.offset < end && slot.offset == SlotAt(s, f);
    hide *;
    WithinParts(records, slot, record, more, end);
  }

  lemma FormedParts(s: Section, now: Section, slots: map<string, Label>, code: seq<Byte>, fixups: seq<Fixup>, k: nat)
    requires Own(code, fixups, slots, k) && Formed(s, now, slots, code, fixups, k)
    ensures |s.patches| + k + 2 <= |now.patches|
    ensures var more := now.patches[|s.patches| + k + 2..];
      && now.patches[|s.patches|..] == Records(fixups[..k], slots, |s.buf|, |code|) + [SlotRecord(s, fixups[k])]
                                       + ([RecordOf(fixups[k], slots, |s.buf|, |code|)] + more)
      && forall p | p in more :: SlotAt(s, fixups[k]) + 8 <= p.offset
  {
    hide SlotBytes, RecordOf, SlotRecord, FieldEnd, Sized, SlotAt;
    PatchParts(s.patches, Records(fixups[..k], slots, |s.buf|, |code|), SlotRecord(s, fixups[k]),
               RecordOf(fixups[k], slots, |s.buf|, |code|), now.patches);
  }

  lemma WithinParts(records: seq<PatchRecord>, slot: PatchRecord, record: PatchRecord, more: seq<PatchRecord>, end: nat)
    requires (forall p | p in records :: p.offset < end) && record.offset < end
    requires forall p | p in more :: slot.offset + 8 <= p.offset
    ensures Within(records + [slot] + ([record] + more), end)
         == records + (if slot.offset < end then [slot] else []) + Within([record] + more, end)
    ensures end <= slot.offset ==> Within([record] + more, end) == [record]
  {
    WithinConcat(records + [slot], [record] + more, end);
    WithinConcat(records, [slot], end);
    WithinAll(records, end);
    WithinAll([slot], end);
    if end <= slot.offset {
      WithinConcat([record], more, end);
      WithinAll([record], end);
      WithinAll(more, end);
    }
  }

  lemma PrefixOk(code: seq<Byte>, fixups: seq<Fixup>, k: nat)
    requires FixupsOk(code, fixups) && k <= |fixups|
    ensures FixupsOk(code, fixups[..k])
  {
    hide FixupOk, Size;
  }

  lemma SlotNoRecord(s: Section, slots: map<string, Label>, code: seq<Byte>, fixups: seq<Fixup>, k: nat,
                     rest: seq<PatchRecord>)
    requires Requested(fixups, slots) && k < |fixups| && Requested(fixups[..k], slots)
    requires fixups[k].target.ToExtern? && Sized(fixups[k].kind)
    ensures Records(fixups, slots, |s.buf|, |code|)
         != Records(fixups[..k], slots, |s.buf|, |code|) + [SlotRecord(s, fixups[k])] + rest
  {
    SizePositive(fixups[k].kind);
    hide Size, SlotPad;
    var all := Records(fixups[..k], slots, |s.buf|, |code|) + [SlotRecord(s, fixups[k])] + rest;
    assert all[k] == SlotRecord(s, fixups[k]);
    assert fixups[k] in fixups;
    assert Records(fixups, slots, |s.buf|, |code|)[k] == RecordOf(fixups[k], slots, |s.buf|, |code|);
  }

  lemma RecordsAll(slots: map<string, Label>, code: seq<Byte>, fixups: seq<Fixup>, k: nat, start: nat)
    requires Requested(fixups, slots) && k < |fixups| && Requested(fixups[..k], slots) && fixups[k] in fixups
    ensures Records(fixups[..k], slots, start, |code|) + [RecordOf(fixups[k], slots, start, |code|)]
            == Records(fixups, slots, start, |code|)
       <==> k == |fixups| - 1
  {
    hide RecordOf;
    if k == |fixups| - 1 {
      assert fixups == fixups[..k] + [fixups[k]];
    }
  }

  /** Of the bytes after the field, those that the padding covers are zeros. */
  lemma OwnBytes(s: Section, now: Section, code: seq<Byte>, f: Fixup)
    requires FieldEnd(f) <= |code| && SlotBytes(s, code, f) <= now.buf && |s.buf| + |code| <= SlotAt(s, f)
    ensures s.buf + code <= now.buf <==> code[FieldEnd(f)..] == Zeros(|code| - FieldEnd(f))
  {
    var end, pad := FieldEnd(f), SlotPad(|s.buf| + FieldEnd(f));
    hide FieldEnd;
    assert code == code[..end] + code[end..];
    var head := SlotBytes(s, code, f)[..|s.buf| + |code|];
    assert head == now.buf[..|s.buf| + |code|];
    assert head == s.buf + code[..end] + Zeros(|code| - end);
    assert s.buf + code == s.buf + code[..end] + code[end..];
    SameTail(s.buf + code[..end], code[end..], Zeros(|code| - end));
  }

  lemma SameTail(a: seq<Byte>, b: seq<Byte>, c: seq<Byte>)
    requires |b| == |c|
    ensures a + b == a + c <==> b == c
  {
    assert (a + b)[|a|..] == b && (a + c)[|a|..] == c;
  }

  /**
    Where an instruction came to lie: its bytes are the encoded ones exactly if it made no slot in its
    own section, and it is whole exactly if no slot is in its way. A slot that it made before its last
    bytes has bytes after it.
   */
  ghost predicate Placement(s: Section, now: Section, keys: set<string>, slots: map<string, Label>, code: seq<Byte>,
                            fixups: seq<Fixup>)
    requires Requested(fixups, slots)
  {
    && now == s.(buf := now.buf, patches := now.patches, insns := true)
    && (now.buf == s.buf + code <==> !OwnSlots(s.name, keys, fixups))
    && (!OwnSlots(s.name, keys, fixups) ==> now.patches == s.patches + Records(fixups, slots, |s.buf|, |code|))
    && (Whole(s, now, slots, code, fixups) <==> Intact(s.name, |s.buf|, keys, code, fixups))
    && (OwnSlots(s.name, keys, fixups) && FieldEnd(fixups[FirstNew(fixups, keys)]) < |code| ==> SlotBefore(s, now, 1))
  }

  lemma {:induction false} FlushedSettings(s: Section, keys: set<string>, slots: map<string, Label>, code: seq<Byte>,
                                           fixups: seq<Fixup>)
    requires FixupsOk(code, fixups) && Requested(fixups, slots)
    ensures var now := FlushedTo(s, keys, slots, code, fixups);
      now == s.(buf := now.buf, patches := now.patches)
    decreases |fixups|
  {
    hide FixupsOk, Requested, LastEnd, SlotNames;
    if fixups != [] {
      FlushedUnfold(s, keys, slots, code, fixups);
      hide FlushedTo;
      FlushedSettings(s, keys, slots, code, fixups[..|fixups| - 1]);
    }
  }

  lemma FlushMeans(s: Section, keys: set<string>, slots: map<string, Label>, code: seq<Byte>, fixups: seq<Fixup>)
    requires FixupsOk(code, fixups) && Requested(fixups, slots)
    ensures Placement(s, AfterFlush(s, keys, slots, code, fixups), keys, slots, code, fixups)
  {
    WholeExactly(s, keys, slots, code, fixups);
    FlushedSettings(s, keys, slots, code, fixups);
    LastFixup(code, fixups);
    var flushed := FlushedTo(s, keys, slots, code, fixups);
    hide FlushedTo, Intact, FixupsOk, Whole, Within, SlotBefore, LastEnd, FieldEnd, Records;
    if OwnSlots(s.name, keys, fixups) {
      FlushedFormed(s, keys, slots, code, fixups);
      SlotComesBefore(s, flushed, slots, code, fixups, FirstNew(fixups, keys));
      hide Own, Formed;
    } else {
      FlushedPlain(s, keys, slots, code, fixups);
      Rejoined(s.buf, code, LastEnd(fixups));
    }
  }

  lemma Rejoined(buf: seq<Byte>, code: seq<Byte>, n: nat)
    requires n <= |code|
    ensures buf + code[..n] + code[n..] == buf + code
  {
    assert code[..n] + code[n..] == code;
  }

  lemma SlotComesBefore(s: Section, now: Section, slots: map<string, Label>, code: seq<Byte>, fixups: seq<Fixup>,
                        k: nat)
    requires LastEnd(fixups) <= |code| && Own(code, fixups, slots, k) && Formed(s, now, slots, code, fixups, k)
    ensures now.name == s.name && |s.buf| + |code| < |now.buf| + |code| - LastEnd(fixups)
    ensures FieldEnd(fixups[k]) < |code| ==> SlotBefore(s, AppendBytes(now, code[LastEnd(fixups)..]).(insns := true), 1)
  {
    var f := fixups[k];
    SlotBytesEnd(s, code, f);
    var slot := SlotRecord(s, f);
    assert now.patches[|s.patches| + k] == slot;
    hide FieldEnd, LastEnd, Records, SlotPad;
  }

  /** A whole instruction without fixups. */
  lemma WholePlain(s: Section, now: Section, slots: map<string, Label>, code: seq<Byte>)
    requires s.Valid() && Grown(s, now) && Requested([], slots) && Whole(s, now, slots, code, [])
    ensures Installed(now, |s.buf|, code, {})
  {
    hide Size, Sized, PowerOfTwo, Clean, RecordOf;
    CodeAt(s, now, code);
    forall k | 0 <= k < |now.patches|
      ensures now.patches[k].offset + Size(now.patches[k].kind) <= |s.buf| || |s.buf| + |code| <= now.patches[k].offset
    {
      if k < |s.patches| {
        assert s.Holds(s.patches[k]);
      } else {
        assert now.patches[k] in now.patches[|s.patches|..];
        WithinMember(now.patches[|s.patches|..], |s.buf| + |code|, now.patches[k]);
      }
    }
  }

  lemma {:induction false} WithinMember(patches: seq<PatchRecord>, end: nat, p: PatchRecord)
    ensures p in Within(patches, end) <==> p in patches && p.offset < end
  {
    if patches != [] {
      WithinMember(patches[..|patches| - 1], end, p);
      assert patches == patches[..|patches| - 1] + [patches[|patches| - 1]];
    }
  }

  lemma CodeAt(s: Section, now: Section, code: seq<Byte>)
    requires s.buf + code <= now.buf
    ensures |s.buf| + |code| <= |now.buf| && now.buf[|s.buf|..|s.buf| + |code|] == code
  {
    assert now.buf[|s.buf|..|s.buf| + |code|] == (s.buf + code)[|s.buf|..];
  }

  /** A whole instruction with one fixup: its patch is clean, and no other writes over the instruction. */
  lemma WholeOne(s: Section, now: Section, slots: map<string, Label>, code: seq<Byte>, f: Fixup) returns (j: nat)
    requires s.Valid() && Grown(s, now) && Requested([f], slots) && Whole(s, now, slots, code, [f])
    requires FixupOk(code, f)
    ensures f in [f]
    ensures |s.patches| <= j < |now.patches| && now.patches[j] == RecordOf(f, slots, |s.buf|, |code|) && Clean(now, j)
    ensures Installed(now, |s.buf|, code, {j})
  {
    hide Whole, Within, FixupOk, Requested, RecordOf, Section.Valid, Grown, Clean, Installed, Size;
    var record := OneRecord(s, now, slots, code, f);
    var i :| 0 <= i < |now.patches[|s.patches|..]| && now.patches[|s.patches|..][i] == record;
    j := |s.patches| + i;
    OnlyOne(s, now, code, record, j);
  }

  lemma OneRecord(s: Section, now: Section, slots: map<string, Label>, code: seq<Byte>, f: Fixup)
    returns (record: PatchRecord)
    requires Requested([f], slots) && Whole(s, now, slots, code, [f]) && FixupOk(code, f)
    ensures f in [f] && record == RecordOf(f, slots, |s.buf|, |code|) && 0 < Size(record.kind)
    ensures |s.patches| <= |now.patches| && record in now.patches[|s.patches|..]
    ensures Within(now.patches[|s.patches|..], |s.buf| + |code|) == [record]
    ensures |s.buf| + |code| <= |now.buf| && now.buf[|s.buf|..|s.buf| + |code|] == code
  {
    hide Within, Whole, Records, Requested, FixupOk, Size, Sized, RecordOf;
    SingleRecord(slots, code, f, |s.buf|);
    WholeIs(s, now, slots, code, [f]);
    record := RecordOf(f, slots, |s.buf|, |code|);
    CodeAt(s, now, code);
    WithinMember(now.patches[|s.patches|..], |s.buf| + |code|, record);
  }

  lemma SingleRecord(slots: map<string, Label>, code: seq<Byte>, f: Fixup, start: nat)
    requires Requested([f], slots) && FixupOk(code, f)
    ensures f in [f] && (f.kind.Slot? ==> f.target.ToExtern? && f.target.extern.name in slots)
    ensures Records([f], slots, start, |code|) == [RecordOf(f, slots, start, |code|)]
    ensures var record := RecordOf(f, slots, start, |code|);
      start <= record.offset < start + |code| && 0 < Size(record.kind)
  {
    assert f in [f];
    FixupBounds(code, f);
    assert Size(RecordOf(f, slots, start, |code|).kind) == Size(f.kind);
    hide Size, Sized, RecordOf;
  }

  lemma OnlyOne(s: Section, now: Section, code: seq<Byte>, record: PatchRecord, j: nat)
    requires s.Valid() && Grown(s, now) && |s.patches| <= j < |now.patches| && now.patches[j] == record
    requires Within(now.patches[|s.patches|..], |s.buf| + |code|) == [record] && 0 < Size(record.kind)
    requires |s.buf| + |code| <= |now.buf| && now.buf[|s.buf|..|s.buf| + |code|] == code
    ensures Clean(now, j) && Installed(now, |s.buf|, code, {j})
  {
    hide Size, Sized, PowerOfTwo, Over, Within;
    forall k | 0 <= k < |now.patches| && k != j
      ensures now.patches[k].offset + Size(now.patches[k].kind) <= |s.buf| || |s.buf| + |code| <= now.patches[k].offset
    {
      if k < |s.patches| {
        assert s.Holds(s.patches[k]);
      } else {
        assert now.patches[k] in now.patches[|s.patches|..];
        WithinMember(now.patches[|s.patches|..], |s.buf| + |code|, now.patches[k]);
        assert !Overlap(now.patches[j], now.patches[k]);
      }
    }
  }

  /** The code is at `start` with the patch of its fixup, number j, which is clean and the only one over it. */
  ghost predicate PatchedAt(s: Section, start: nat, slots: map<string, Label>, code: seq<Byte>, f: Fixup, j: nat)
  {
    && j < |s.patches| && (f.kind.Slot? ==> f.target.ToExtern? && f.target.extern.name in slots)
    && s.patches[j] == RecordOf(f, slots, start, |code|) && Clean(s, j) && Installed(s, start, code, {j})
  }

  /** An instruction with at most one fixup is at `start`, with its patch if it has one and no other over it. */
  ghost predicate Stands(s: Section, start: nat, slots: map<string, Label>, code: seq<Byte>, fixups: seq<Fixup>)
    requires |fixups| <= 1
  {
    if fixups == [] then Installed(s, start, code, {}) else exists j :: PatchedAt(s, start, slots, code, fixups[0], j)
  }

  /** Whatever is emitted later leaves it so. */
  lemma StandsOn(a: Section, b: Section, start: nat, slots: map<string, Label>, code: seq<Byte>, fixups: seq<Fixup>)
    requires a.Valid() && Grown(a, b) && |fixups| <= 1 && Stands(a, start, slots, code, fixups)
    ensures Stands(b, start, slots, code, fixups)
  {
    hide Section.Valid, Clean, Installed, RecordOf;
    if fixups == [] {
      InstalledStays(a, b, start, code, {});
    } else {
      var j :| PatchedAt(a, start, slots, code, fixups[0], j);
      InstalledStays(a, b, start, code, {j});
      CleanStays(a, b, j);
      assert PatchedAt(b, start, slots, code, fixups[0], j);
    }
  }

  /** A flushed instruction with at most one fixup stands exactly if no slot is in its way. */
  lemma StandsExactly(s: Section, now: Section, keys: set<string>, slots: map<string, Label>, code: seq<Byte>,
                      fixups: seq<Fixup>)
    requires s.Valid() && Grown(s, now) && |fixups| <= 1 && FixupsOk(code, fixups) && Requested(fixups, slots)
    requires Whole(s, now, slots, code, fixups) <==> Intact(s.name, |s.buf|, keys, code, fixups)
    ensures Stands(now, |s.buf|, slots, code, fixups) <==> Intact(s.name, |s.buf|, keys, code, fixups)
  {
    hide Section.Valid, Clean, Installed, RecordOf, Whole, Intact, FixupOk, Grown, Requested;
    if fixups == [] {
      if Whole(s, now, slots, code, fixups) {
        WholePlain(s, now, slots, code);
      }
      if Installed(now, |s.buf|, code, {}) {
        PlainIsWhole(s, now, slots, code);
      }
    } else {
      var f := fixups[0];
      assert fixups == [f] && FixupOk(code, f);
      if Whole(s, now, slots, code, fixups) {
        var j := WholeOne(s, now, slots, code, f);
        assert f.kind.Slot? ==> f.target.ToExtern? && f.target.extern.name in slots by { OneRequested(f, slots); }
        assert PatchedAt(now, |s.buf|, slots, code, f, j);
      }
      if Stands(now, |s.buf|, slots, code, fixups) {
        var j :| PatchedAt(now, |s.buf|, slots, code, f, j);
        OneIsWhole(s, now, slots, code, f, j);
      }
    }
  }

  lemma OneRequested(f: Fixup, slots: map<string, Label>)
    requires Requested([f], slots)
    ensures f.kind.Slot? ==> f.target.ToExtern? && f.target.extern.name in slots
  {
    assert f in [f];
  }

  lemma NewPatch(s: Section, now: Section, code: seq<Byte>, own: set<nat>, k: nat)
    requires Grown(s, now) && Installed(now, |s.buf|, code, own) && |s.patches| <= k < |now.patches| && k !in own
    ensures |s.buf| + |code| <= now.patches[k].offset
  {
    assert Clean(now, k);
    SizePositive(now.patches[k].kind);
    hide Size, Sized, Template;
  }

  lemma CodeFollows(s: Section, now: Section, code: seq<Byte>)
    requires s.buf <= now.buf && |s.buf| + |code| <= |now.buf| && now.buf[|s.buf|..|s.buf| + |code|] == code
    ensures s.buf + code <= now.buf
  {
    assert now.buf[..|s.buf| + |code|] == now.buf[..|s.buf|] + now.buf[|s.buf|..|s.buf| + |code|];
  }

  lemma PlainIsWhole(s: Section, now: Section, slots: map<string, Label>, code: seq<Byte>)
    requires Grown(s, now) && Requested([], slots) && Installed(now, |s.buf|, code, {})
    ensures Whole(s, now, slots, code, [])
  {
    var end, added := |s.buf| + |code|, now.patches[|s.patches|..];
    hide Clean;
    CodeFollows(s, now, code);
    forall p | p in added
      ensures end <= p.offset
    {
      var i :| 0 <= i < |added| && added[i] == p;
      NewPatch(s, now, code, {}, |s.patches| + i);
    }
    hide Within;
    WithinAll(added, end);
  }

  lemma OneIsWhole(s: Section, now: Section, slots: map<string, Label>, code: seq<Byte>, f: Fixup, j: nat)
    requires s.Valid() && Grown(s, now) && Requested([f], slots) && FixupOk(code, f)
    requires PatchedAt(now, |s.buf|, slots, code, f, j)
    ensures Whole(s, now, slots, code, [f])
  {
    hide Size, Sized, Clean, Section.Valid, RecordOf, Records, Requested, FixupOk, Grown, NewWithin;
    var end, record := |s.buf| + |code|, RecordOf(f, slots, |s.buf|, |code|);
    SingleRecord(slots, code, f, |s.buf|);
    assert s.buf <= now.buf by { GrownBuf(s, now); }
    CodeFollows(s, now, code);
    NotOld(s, now, j);
    OnlyWithin(s, now, code, j, end, record);
  }

  lemma GrownBuf(s: Section, now: Section)
    requires Grown(s, now)
    ensures s.buf <= now.buf
  {
    hide Clean;
  }

  /** A patch over bytes that are new is new. */
  lemma NotOld(s: Section, now: Section, j: nat)
    requires s.Valid() && Grown(s, now) && j < |now.patches|
    requires |s.buf| <= now.patches[j].offset && 0 < Size(now.patches[j].kind)
    ensures |s.patches| <= j
  {
    hide Size, Sized, Clean, PowerOfTwo;
    assert forall k | 0 <= k < |s.patches| :: s.patches[k] == now.patches[k] && s.Holds(s.patches[k]);
  }

  lemma OnlyWithin(s: Section, now: Section, code: seq<Byte>, j: nat, end: nat, record: PatchRecord)
    requires Grown(s, now) && Installed(now, |s.buf|, code, {j}) && end == |s.buf| + |code|
    requires |s.patches| <= j < |now.patches| && now.patches[j] == record && record.offset < end
    ensures NewWithin(s, now, end, [record])
  {
    hide Size, Clean, Within, Grown, Installed;
    var before, after := now.patches[|s.patches|..j], now.patches[j + 1..];
    assert s.patches <= now.patches by { GrownPatches(s, now); }
    forall p | p in before
      ensures end <= p.offset
    {
      var i :| 0 <= i < |before| && before[i] == p;
      NewPatch(s, now, code, {j}, |s.patches| + i);
    }
    forall p | p in after
      ensures end <= p.offset
    {
      var i :| 0 <= i < |after| && after[i] == p;
      NewPatch(s, now, code, {j}, j + 1 + i);
    }
    assert now.patches[|s.patches|..] == before + [record] + after;
    OneBetween(before, record, after, end);
  }

  lemma GrownPatches(s: Section, now: Section)
    requires Grown(s, now)
    ensures s.patches <= now.patches
  {
    hide Clean;
  }

  lemma OneBetween(before: seq<PatchRecord>, record: PatchRecord, after: seq<PatchRecord>, end: nat)
    requires record.offset < end
    requires (forall p | p in before :: end <= p.offset) && forall p | p in after :: end <= p.offset
    ensures Within(before + [record] + after, end) == [record]
  {
    WithinConcat(before + [record], after, end);
    WithinConcat(before, [record], end);
    WithinAll(before, end);
    WithinAll(after, end);
    WithinAll([record], end);
  }

  lemma TakeOut(front: seq<string>, gone: seq<string>, j: nat)
    requires j < |gone|
    ensures front + gone[j..] == front + [gone[j]] + gone[j + 1..]
  {
  }

  lemma TakeNext(fixups: seq<Fixup>, k: nat)
    requires k < |fixups|
    ensures fixups[..k + 1] == fixups[..k] + [fixups[k]]
  {
  }

  lemma FixupAt(code: seq<Byte>, fixups: seq<Fixup>, k: nat)
    requires FixupsOk(code, fixups) && k < |fixups|
    ensures FixupOk(code, fixups[k])
    ensures k + 1 < |fixups| ==> fixups[k].off + Size(fixups[k].kind) <= fixups[k + 1].off
  {
  }

  lemma SlotNamesSplit(done: seq<Fixup>, f: Fixup)
    ensures SlotNames(done + [f]) == SlotNames(done) + SlotNames([f])
    ensures SlotNames([f]) == if f.kind.Slot? && f.target.ToExtern? then {f.target.extern.name} else {}
  {
    assert forall g | g in done + [f] :: g in done || g == f;
    assert f in [f];
  }

  /** If no fixup makes a new slot, every slot asked for was there before. */
  lemma NoOwnSlots(keys: set<string>, done: seq<Fixup>)
    requires FirstNew(done, keys) == |done|
    ensures SlotNames(done) <= keys
  {
    forall n | n in SlotNames(done)
      ensures n in keys
    {
      var f :| f in done && f.kind.Slot? && f.target.ToExtern? && f.target.extern.name == n;
      var k :| 0 <= k < |done| && done[k] == f;
      assert !NewSlot(done[k], keys);
    }
  }

  function SlotNames(fixups: seq<Fixup>): set<string>
  {
    set f | f in fixups && f.kind.Slot? && f.target.ToExtern? :: f.target.extern.name
  }

  /** The patch of a fixup whose field is emitted at an offset of the section. */
  function RecordAt(f: Fixup, slots: map<string, Label>, at: nat, total: nat): PatchRecord
    requires f.kind.Slot? ==> f.target.ToExtern? && f.target.extern.name in slots
  {
    if f.kind.Slot? then PatchRecord(at, f.kind.field, ToLabel(slots[f.target.extern.name]), Adjusted(f, total))
    else PatchRecord(at, f.kind, f.target, Adjusted(f, total))
  }

  /** A section after the field of a fixup and its patch, with the slot that it asked for in between. */
  function WithFixup(now: Section, f: Fixup, before: set<string>, slots: map<string, Label>, total: nat): Section
    requires f.kind.Slot? ==> f.target.ToExtern? && f.target.extern.name in slots
  {
    var field := AppendBytes(now, Zeros(Size(f.kind)));
    AppendPatch(if OwnSlot(field, before, f.kind, f.target) then WithSlot(field, f.target.extern) else field,
                RecordAt(f, slots, |now.buf|, total))
  }

  function RecordOf(f: Fixup, slots: map<string, Label>, start: nat, total: nat): PatchRecord
    requires f.kind.Slot? ==> f.target.ToExtern? && f.target.extern.name in slots
  {
    RecordAt(f, slots, start + f.off, total)
  }

  function Records(fixups: seq<Fixup>, slots: map<string, Label>, start: nat, total: nat): seq<PatchRecord>
    requires Requested(fixups, slots)
  {
    seq(|fixups|, k requires 0 <= k < |fixups| => RecordOf(fixups[k], slots, start, total))
  }

  /** A slot patch that makes the first request for its extern's slot, in the externs section itself. */
  predicate OwnSlot(s: Section, slots: set<string>, kind: Kind, target: Target)
  {
    s.name == "externs" && kind.Slot? && target.ToExtern? && target.extern.name !in slots
  }

  /** The section table once a slot patch's extern has its slot. */
  function SectionsFor(secs: seq<Section>, slots: set<string>, kind: Kind, target: Target): seq<Section>
    requires kind.Slot? ==> target.ToExtern?
  {
    if kind.Slot? && target.extern.name !in slots then SlotSections(secs, target.extern) else secs
  }

  lemma SectionsForGrows(secs: seq<Section>, slots: set<string>, kind: Kind, target: Target, cur: nat)
    requires ValidSections(secs) && cur < |secs|
    ensures kind.Slot? && target.ToExtern? && target.extern.name !in slots ==>
      && var more := SectionsFor(secs, slots, kind, target);
      && |secs| <= |more|
      && more[cur] == (if OwnSlot(secs[cur], slots, kind, target) then WithSlot(secs[cur], target.extern)
                       else secs[cur])
      && (forall i | 0 <= i < |secs| && secs[i].name != "externs" :: more[i] == secs[i])
      && (forall i | 0 <= i < |secs| :: more[i].name == secs[i].name)
      && more[cur].Valid() && secs[cur].buf <= more[cur].buf
  {
    if kind.Slot? && target.ToExtern? && target.extern.name !in slots {
      SlotSectionsExtends(secs, target.extern);
    }
  }

  /** A section with a zeroed field at its end and a patch over it. */
  function WithField(s: Section, kind: Kind, target: Target, addend: int): Section
  {
    AppendPatch(AppendBytes(s, Zeros(Size(kind))), PatchRecord(|s.buf|, kind, target, addend))
  }

  function Configured(s: Section, align: Option<int>, writable: Option<bool>): Section
    requires align.Some? ==> 0 < align.value
  {
    s.(align := if align.Some? && s.align < align.value then align.value else s.align,
       writable := if writable.Some? then writable.value else s.writable)
  }

  /** The section of that name is number `cur`: one of those there were, or a new last one. The others are as before. */
  predicate Selected(secs: seq<Section>, more: seq<Section>, name: string, cur: nat)
  {
    && cur < |more| && more[cur].name == name
    && (cur < |secs| ==> secs[cur].name == name && more == secs[cur := more[cur]])
    && (cur >= |secs| ==> (forall s | s in secs :: s.name != name) && more == secs + [more[cur]])
  }

  lemma SelectedMade(secs: seq<Section>, name: string, align: nat)
    ensures var made, i := WithSection(secs, name, align), IndexOf(secs, name);
      && Selected(secs, made, name, i)
      && made[i] == if i < |secs| then secs[i] else Section(name, [], [], align, false, false)
  {
    hide Find;
  }

  lemma SelectedUpdate(secs: seq<Section>, made: seq<Section>, name: string, i: nat, s: Section)
    requires Selected(secs, made, name, i) && s.name == name
    ensures Selected(secs, made[i := s], name, i)
  {
  }

  /**
    The first request for a slot in `externs`, which is made with alignment 8 if it is not there: zeros
    up to a multiple of 8, then eight more under a patch of the extern's address.
   */
  lemma SlotSectionsMean(secs: seq<Section>, extern: Extern)
    requires ValidSections(secs)
    ensures var more, i := SlotSections(secs, extern), IndexOf(secs, "externs");
      && Selected(secs, more, "externs", i)
      && var s := if i < |secs| then secs[i] else Section("externs", [], [], 8, false, false);
      && var at := |more[i].buf| - 8;
      && |s.buf| <= at < |s.buf| + 8 && at % 8 == 0
      && more[i] == s.(buf := s.buf + Zeros(|more[i].buf| - |s.buf|),
                       patches := s.patches + [PatchRecord(at, Abs(8), ToExtern(extern), 0)])
  {
    SelectedMade(secs, "externs", 8);
    PowersUsed();
    WithSectionExtends(secs, "externs", 8);
    var more, i := WithSection(secs, "externs", 8), IndexOf(secs, "externs");
    assert more[i].Valid();
    SlotSectionValid(more[i], extern);
    SelectedUpdate(secs, more, "externs", i, WithSlot(more[i], extern));
    hide Selected, IndexOf, WithSection, ValidSections, Section.Valid, PowerOfTwo;
    var pad := |SlotPad(|more[i].buf|)|;
    assert Zeros(pad) + Zeros(8) == Zeros(pad + 8);
    assert more[i].buf + Zeros(pad) + Zeros(8) == more[i].buf + Zeros(pad + 8);
  }

  lemma ConfiguredGrows(secs: seq<Section>, name: string, align: Option<int>, writable: Option<bool>)
    requires ValidSections(secs) && (align.Some? ==> 0 < align.value)
    ensures var made, i := WithSection(secs, name, 16), IndexOf(secs, name);
      i < |made| && GrownAll(secs, made[i := Configured(made[i], align, writable)])
  {
    hide Grown, GrownAll, Section.Valid;
    PowersUsed();
    WithSectionExtends(secs, name, 16);
    var made, i := WithSection(secs, name, 16), IndexOf(secs, name);
    var s := Configured(made[i], align, writable);
    GrownAllMade(secs, name, 16);
    GrownSelf(made[i], s.align, s.writable, s.insns);
    GrownAllUpdate(made, i, s);
    GrownAllChain(secs, made, made[i := s]);
  }

  lemma ConfiguredValid(s: Section, align: Option<int>, writable: Option<bool>)
    requires s.Valid() && (align.Some? ==> 0 < align.value && PowerOfTwo(align.value))
    ensures Configured(s, align, writable).Valid()
  {
    forall p | p in s.patches
      ensures Configured(s, align, writable).Holds(p)
    {
      assert s.Holds(p);
    }
  }

  /** The bytes that `align` emits: the given fill repeated, else NOPs after code and zeros after data. */
  function Padding(s: Section, n: int, fill: Option<seq<Byte>>, nopFill: nat -> seq<Byte>): seq<Byte>
    requires 0 < n
  {
    var pad := (0 - |s.buf|) % n;
    if fill == Some([]) then []
    else if fill.Some? then seq(pad, i requires 0 <= i => fill.value[i % |fill.value|])
    else if s.insns then nopFill(pad)
    else Zeros(pad)
  }

  /** The fill over and over; without one, NOPs where an instruction was recorded, and zeros elsewhere. */
  predicate IsPadding(added: seq<Byte>, insns: bool, fill: Option<seq<Byte>>, nopFill: nat -> seq<Byte>)
  {
    match fill
    case Some(f) => added == [] || (f != [] && forall i | 0 <= i < |added| :: added[i] == f[i % |f|])
    case None =>
      if insns then added == nopFill(|added|) else forall i | 0 <= i < |added| :: added[i] == 0
  }

  lemma PaddingIs(s: Section, n: int, fill: Option<seq<Byte>>, nopFill: nat -> seq<Byte>)
    requires 0 < n && forall k :: |nopFill(k)| == k
    ensures IsPadding(Padding(s, n, fill, nopFill), s.insns, fill, nopFill)
    ensures IsPadding([], s.insns, fill, nopFill)
  {
    assert nopFill(0) == [];
  }

  lemma PaddingSize(s: Section, n: int, fill: Option<seq<Byte>>, nopFill: nat -> seq<Byte>)
    requires 0 < n && forall k :: |nopFill(k)| == k
    ensures |s.buf| % n == 0 <==> (0 - |s.buf|) % n == 0
    ensures fill != Some([]) ==> |Padding(s, n, fill, nopFill)| == (0 - |s.buf|) % n
    ensures (|s.buf| + (0 - |s.buf|) % n) % n == 0
    ensures |s.buf| % n == 0 ==> Padding(s, n, fill, nopFill) == []
  {
    var m := (0 - |s.buf|) % n;
    var q := (0 - |s.buf|) / n;
    assert |s.buf| + m == -q * n;
    Bits.DivModUnique(|s.buf| + m, n, -q, 0);
    if |s.buf| % n == 0 {
      Bits.DivModUnique(0 - |s.buf|, n, -(|s.buf| / n), 0);
    }
    if m == 0 {
      Bits.DivModUnique(|s.buf|, n, -q, 0);
    }
  }

}
