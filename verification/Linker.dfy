/**
  jita/core/link.py as it runs: `layout` fills the offset table section by section, `link` fills the
  image and applies the patches to it in place. Each is proved against `Linking`.
 */
module Linker {
  import Bits
  import opened Bytes
  import opened Patch
  import opened Linking
  import opened Assembling
  import opened Wrappers

  /** How `link` looks a patch target up. */
  function PlaceOf(asm: Assembler, externs: map<string, int>, t: Target): Place
    reads asm`sections, if t.ToLabel? then {t.lbl} else {}
  {
    match t
    case ToLabel(l) =>
      if l.home == null then Nowhere
      else if l.home == asm && l.section < |asm.sections| then At(asm.sections[l.section].name, l.offset)
      else Elsewhere
    case ToExtern(e) =>
      if e.name in externs then Fixed(externs[e.name])
      else match e.address case Some(a) => Fixed(a) case None => Unknown
  }

  /**
    The address that a target has in a program at `base` with its sections at these offsets. A label has
    one if it is bound in a section of this assembler. For an extern the address given to the link
    comes before its own.
   */
  function AddressAt(asm: Assembler, externs: map<string, int>, base: int, offsets: map<string, nat>, t: Target)
    : Option<int>
    reads asm`sections, if t.ToLabel? then {t.lbl} else {}
  {
    match t
    case ToLabel(l) =>
      if l.home == asm && l.section < |asm.sections| && asm.sections[l.section].name in offsets
      then Some(base + offsets[asm.sections[l.section].name] + l.offset) else None
    case ToExtern(e) => if e.name in externs then Some(externs[e.name]) else e.address
  }

  /** The link resolves targets to these addresses, and fails where there is none. */
  lemma ResolvesTo(asm: Assembler, externs: map<string, int>, base: int, l: Layout, t: Target)
    ensures match AddressAt(asm, externs, base, l.offsets, t)
            case Some(a) => Resolve(PlaceOf(asm, externs, t), l, base) == Ok(a)
            case None =>
              Resolve(PlaceOf(asm, externs, t), l, base)
              == Err(if t.ToExtern? then NoAddress else if t.lbl.home == null then NeverBound else ForeignLabel)
  {
  }

  function RelocOf(asm: Assembler, externs: map<string, int>, p: PatchRecord): Reloc
    reads asm`sections, if p.target.ToLabel? then {p.target.lbl} else {}
  {
    Reloc(p.offset, p.kind, PlaceOf(asm, externs, p.target), p.addend)
  }

  ghost function RelocsOf(asm: Assembler, externs: map<string, int>, patches: seq<PatchRecord>): seq<Reloc>
    reads *
  {
    if patches == [] then []
    else RelocsOf(asm, externs, patches[..|patches| - 1]) + [RelocOf(asm, externs, patches[|patches| - 1])]
  }

  ghost function SecsOf(asm: Assembler, externs: map<string, int>, sections: seq<Section>): seq<Sec>
    reads *
  {
    if sections == [] then []
    else
      var s := sections[|sections| - 1];
      SecsOf(asm, externs, sections[..|sections| - 1])
      + [Sec(s.name, s.buf, RelocsOf(asm, externs, s.patches), s.align, s.writable)]
  }

  /** The assembler as `Linking` sees it, every target looked up. */
  ghost function Snapshot(asm: Assembler, externs: map<string, int>): seq<Sec>
    reads *
  {
    SecsOf(asm, externs, asm.sections)
  }

  ghost predicate MirrorsSection(asm: Assembler, externs: map<string, int>, s: Section, t: Sec)
    reads *
  {
    && t.name == s.name && t.buf == s.buf && t.align == s.align && t.writable == s.writable
    && |t.relocs| == |s.patches|
    && forall j | 0 <= j < |s.patches| :: t.relocs[j] == RelocOf(asm, externs, s.patches[j])
  }

  lemma {:induction false} RelocsMirror(asm: Assembler, externs: map<string, int>, patches: seq<PatchRecord>)
    ensures |RelocsOf(asm, externs, patches)| == |patches|
    ensures forall j | 0 <= j < |patches| :: RelocsOf(asm, externs, patches)[j] == RelocOf(asm, externs, patches[j])
  {
    if patches != [] {
      RelocsMirror(asm, externs, patches[..|patches| - 1]);
    }
  }

  lemma {:induction false} SecsMirror(asm: Assembler, externs: map<string, int>, sections: seq<Section>)
    ensures |SecsOf(asm, externs, sections)| == |sections|
    ensures forall i | 0 <= i < |sections| ::
      MirrorsSection(asm, externs, sections[i], SecsOf(asm, externs, sections)[i])
  {
    if sections != [] {
      SecsMirror(asm, externs, sections[..|sections| - 1]);
      RelocsMirror(asm, externs, sections[|sections| - 1].patches);
    }
  }

  /** What every reachable assembler hands to the linker meets the linker's demands. */
  lemma SnapshotValid(asm: Assembler, externs: map<string, int>)
    requires asm.Valid()
    ensures ValidSecs(Snapshot(asm, externs)) && |Snapshot(asm, externs)| == |asm.sections| > 0
    ensures forall i | 0 <= i < |asm.sections| ::
      MirrorsSection(asm, externs, asm.sections[i], Snapshot(asm, externs)[i])
    ensures forall s | s in Snapshot(asm, externs) :: PowerOfTwo(s.align)
  {
    hide PowerOfTwo, Size, Sized;
    var secs := Snapshot(asm, externs);
    SecsMirror(asm, externs, asm.sections);
    forall s | s in secs
      ensures ValidSec(s) && PowerOfTwo(s.align)
    {
      var i :| 0 <= i < |secs| && secs[i] == s;
      assert asm.sections[i].Valid();
      forall r | r in s.relocs
        ensures ValidReloc(r, |s.buf|)
      {
        var j :| 0 <= j < |s.relocs| && s.relocs[j] == r;
        assert asm.sections[i].Holds(asm.sections[i].patches[j]);
      }
    }
  }

  /** The sections as layout sees them: without patches. */
  predicate SameShape(s: Section, t: Sec)
  {
    t.name == s.name && t.buf == s.buf && t.align == s.align && t.writable == s.writable
  }

  method MaxAlignment(sections: seq<Section>, ghost secs: seq<Sec>) returns (align: nat)
    requires |secs| == |sections| && forall i | 0 <= i < |secs| :: SameShape(sections[i], secs[i])
    ensures align == MaxAlign(secs)
  {
    align := 0;
    for i := 0 to |sections|
      invariant align == MaxAlign(secs[..i])
    {
      assert secs[..i + 1][..i] == secs[..i];
      if align < sections[i].align {
        align := sections[i].align;
      }
    }
    assert secs[..|sections|] == secs;
  }

  lemma PlacePrefix(secs: seq<Sec>, start: nat, w: bool, i: nat)
    requires i < |secs| && forall s | s in secs :: 0 < s.align
    ensures forall s | s in secs[..i] :: 0 < s.align
    ensures forall s | s in secs[..i + 1] :: 0 < s.align
    ensures 0 < secs[i].align
    ensures var pos := AlignUp(EndOf(secs[..i], start, w), secs[i].align);
      && EndOf(secs[..i + 1], start, w)
        == (if secs[i].writable == w then pos + |secs[i].buf| else EndOf(secs[..i], start, w))
      && OffsetsOf(secs[..i + 1], start, w)
           == (if secs[i].writable == w then OffsetsOf(secs[..i], start, w)[secs[i].name := pos]
               else OffsetsOf(secs[..i], start, w))
  {
    hide AlignUp;
    assert secs[..i + 1][..i] == secs[..i] && secs[i] in secs;
  }

  lemma PlaceNothing(start: nat, w: bool)
    ensures EndOf([], start, w) == start && OffsetsOf([], start, w) == map[]
  {
  }

  /** The nested `place` of `layout`. */
  method PlaceSections(sections: seq<Section>, offsets: map<string, nat>, start: nat, writable: bool,
                       ghost secs: seq<Sec>)
    returns (placed: map<string, nat>, pos: nat)
    requires |secs| == |sections| && forall i | 0 <= i < |secs| :: SameShape(sections[i], secs[i])
    requires forall s | s in secs :: 0 < s.align
    ensures placed == offsets + OffsetsOf(secs, start, writable)
    ensures pos == EndOf(secs, start, writable)
  {
    hide EndOf, OffsetsOf, AlignUp;
    placed, pos := offsets, start;
    PlaceNothing(start, writable);
    assert secs[..0] == [];
    for i := 0 to |sections|
      invariant placed == offsets + OffsetsOf(secs[..i], start, writable)
      invariant pos == EndOf(secs[..i], start, writable)
    {
      PlacePrefix(secs, start, writable, i);
      if sections[i].writable == writable {
        pos := AlignUp(pos, sections[i].align);
        placed := placed[sections[i].name := pos];
        pos := pos + |sections[i].buf|;
      }
    }
    assert secs[..|sections|] == secs;
  }

  method LayoutOf(sections: seq<Section>, pageSize: nat, ghost secs: seq<Sec>) returns (l: Layout)
    requires 0 < pageSize
    requires |secs| == |sections| && forall i | 0 <= i < |secs| :: SameShape(sections[i], secs[i])
    requires forall s | s in secs :: 0 < s.align
    ensures l == LayOut(secs, pageSize)
  {
    hide EndOf, OffsetsOf, AlignUp;
    var offsets, pos := PlaceSections(sections, map[], 0, false, secs);
    var execSize := AlignUp(pos, pageSize);
    if exists i | 0 <= i < |sections| :: sections[i].writable {
      offsets, pos := PlaceSections(sections, offsets, execSize, true, secs);
      ghost var i :| 0 <= i < |sections| && sections[i].writable;
      assert secs[i] in secs && secs[i].writable;
    } else {
      NoWritable(secs, execSize);
    }
    l := Layout(offsets, pos, execSize);
  }

  lemma {:induction false} NoWritable(secs: seq<Sec>, pos: nat)
    requires forall s | s in secs :: 0 < s.align && !s.writable
    ensures OffsetsOf(secs, pos, true) == map[] && !AnyWritable(secs)
  {
    if secs != [] {
      NoWritable(secs[..|secs| - 1], pos);
    }
  }

  /** The lookup of a target's address in `link`. */
  method TargetOf(asm: Assembler, base: int, externs: map<string, int>, offsets: map<string, nat>, t: Target)
    returns (r: Result<int>)
    requires forall i | 0 <= i < |asm.sections| :: asm.sections[i].name in offsets
    ensures forall l: Layout | l.offsets == offsets :: r == Resolve(PlaceOf(asm, externs, t), l, base)
  {
    match t {
      case ToLabel(lbl) =>
        if lbl.home == null {
          return Err(NeverBound);
        }
        if lbl.home != asm || lbl.section >= |asm.sections| {
          return Err(ForeignLabel);
        }
        return Ok(base + offsets[asm.sections[lbl.section].name] + lbl.offset);
      case ToExtern(e) =>
        if e.name in externs {
          return Ok(externs[e.name]);
        }
        if e.address.None? {
          return Err(NoAddress);
        }
        return Ok(e.address.value);
    }
  }

  // ----- One patch after the other -----

  lemma ApplyPrefix(img: seq<Byte>, done: seq<Field>, f: Field)
    requires (forall g | g in done :: Fits(g, |img|)) && Fits(f, |img|)
    ensures ApplyAll(img, done + [f])
         == match ApplyAll(img, done) case Err(e) => Err(e) case Ok(b) => ApplyOne(b, f)
  {
    assert (done + [f])[..|done|] == done;
    assert forall g | g in done + [f] :: g in done || g == f;
  }

  /** The first failure is the result of the whole. */
  lemma {:induction false} ErrSticks(img: seq<Byte>, fields: seq<Field>, n: nat)
    requires n <= |fields| && forall f | f in fields :: Fits(f, |img|)
    requires ApplyAll(img, fields[..n]).Err?
    ensures ApplyAll(img, fields) == ApplyAll(img, fields[..n])
  {
    if n < |fields| {
      assert fields[..|fields| - 1][..n] == fields[..n];
      ErrSticks(img, fields[..|fields| - 1], n);
    } else {
      assert fields[..n] == fields;
    }
  }

  lemma {:induction false} FieldsPrefix(secs: seq<Sec>, l: Layout, base: int, i: nat)
    requires (forall s | s in secs :: InPlace(l, s)) && i < |secs|
    ensures forall s | s in secs[..i] :: InPlace(l, s)
    ensures FieldsOf(secs[..i], l, base) + SectionFields(secs[i], l, base) <= FieldsOf(secs, l, base)
    ensures FieldsOf(secs[..i + 1], l, base) == FieldsOf(secs[..i], l, base) + SectionFields(secs[i], l, base)
  {
    assert secs[..i + 1][..i] == secs[..i];
    if i + 1 < |secs| {
      var n := |secs| - 1;
      assert secs[..n][..i] == secs[..i] && secs[..n][..i + 1] == secs[..i + 1];
      FieldsPrefix(secs[..n], l, base, i);
    } else {
      assert secs[..i + 1] == secs;
    }
  }

  // ----- The whole link -----

  lemma FilledPrefix(secs: seq<Sec>, l: Layout, i: nat)
    requires (forall s | s in secs :: InPlace(l, s)) && i < |secs|
    ensures forall s | s in secs[..i] :: InPlace(l, s)
    ensures forall s | s in secs[..i + 1] :: InPlace(l, s)
    ensures InPlace(l, secs[i])
    ensures Filled(secs[..i + 1], l) == Splice(Filled(secs[..i], l), l.offsets[secs[i].name], secs[i].buf)
  {
    hide InPlace;
    assert secs[..i + 1][..i] == secs[..i] && secs[i] in secs;
  }

  /** Each section's bytes copied to its offset, one section after the other. */
  method Fill(sections: seq<Section>, l: Layout, out: array<Byte>, ghost secs: seq<Sec>)
    requires |secs| == |sections| && forall i | 0 <= i < |secs| :: SameShape(sections[i], secs[i])
    requires (forall s | s in secs :: InPlace(l, s))
    requires out[..] == Zeros(l.size)
    modifies out
    ensures out[..] == Filled(secs, l)
  {
    hide InPlace, Filled;
    assert secs[..0] == [];
    FilledNothing(l);
    for i := 0 to |sections|
      invariant out[..] == Filled(secs[..i], l)
    {
      FilledPrefix(secs, l, i);
      InPlaceFits(l, secs[i]);
      ghost var b := out[..];
      Store(out, l.offsets[sections[i].name], sections[i].buf);
      assert out[..] == Splice(b, l.offsets[sections[i].name], sections[i].buf);
    }
    assert secs[..|sections|] == secs;
  }

  lemma InPlaceFits(l: Layout, s: Sec)
    requires InPlace(l, s)
    ensures s.name in l.offsets && l.offsets[s.name] + |s.buf| <= l.size
  {
  }

  lemma FilledNothing(l: Layout)
    ensures Filled([], l) == Zeros(l.size)
  {
  }

  /** One patch of the image, in place. */
  method Patch1(out: array<Byte>, f: Field) returns (r: Result<()>)
    requires Fits(f, out.Length)
    modifies out
    ensures r.Ok? ==> ApplyOne(old(out[..]), f) == Ok(out[..])
    ensures r.Err? ==> ApplyOne(old(out[..]), f) == Err(r.error)
  {
    hide Patched, Size, Sized;
    if f.goal.Err? {
      return Err(f.goal.error);
    }
    assert out[..][f.at..f.at + Size(f.kind)] == out[f.at..f.at + Size(f.kind)];
    assert out[..][..f.at] == out[..f.at] && out[..][f.at + Size(f.kind)..] == out[f.at + Size(f.kind)..];
    var ok := Apply(f.kind, out, f.at, f.goal.value, f.place);
    return if ok then Ok(()) else Err(DoesNotFit);
  }

  /** Resolves and applies the patches of one section. */
  method PatchSection(asm: Assembler, base: int, externs: map<string, int>, l: Layout, s: Section, out: array<Byte>,
                      ghost t: Sec)
    returns (r: Result<()>)
    requires forall i | 0 <= i < |asm.sections| :: asm.sections[i].name in l.offsets
    requires MirrorsSection(asm, externs, s, t) && InPlace(l, t) && ValidSec(t) && out.Length == l.size
    modifies out
    ensures forall f | f in SectionFields(t, l, base) :: Fits(f, l.size)
    ensures r.Ok? ==> ApplyAll(old(out[..]), SectionFields(t, l, base)) == Ok(out[..])
    ensures r.Err? ==> ApplyAll(old(out[..]), SectionFields(t, l, base)) == Err(r.error)
  {
    hide Size, Sized, ApplyAll, ApplyOne, Resolve, PlaceOf;
    ghost var fields, b := SectionFields(t, l, base), out[..];
    SectionFieldsFit(t, l, base);
    ApplyNothing(b);
    assert fields[..0] == [];
    for j := 0 to |s.patches|
      invariant ApplyAll(b, fields[..j]) == Ok(out[..])
    {
      var p := s.patches[j];
      assert t.relocs[j] == RelocOf(asm, externs, p);
      var goal := TargetOf(asm, base, externs, l.offsets, p.target);
      var at := l.offsets[s.name] + p.offset;
      var f := Field(p.kind, at, match goal case Ok(a) => Ok(a + p.addend) case Err(e) => Err(e), base + at);
      assert fields[j] == f && fields[j] in fields;
      assert fields[..j + 1] == fields[..j] + [f];
      ApplyPrefix(b, fields[..j], f);
      var one := Patch1(out, f);
      if one.Err? {
        ErrSticks(b, fields, j + 1);
        return one;
      }
    }
    assert fields[..|s.patches|] == fields;
    return Ok(());
  }

  lemma SectionFieldsFit(t: Sec, l: Layout, base: int)
    requires InPlace(l, t) && ValidSec(t)
    ensures |SectionFields(t, l, base)| == |t.relocs|
    ensures forall f | f in SectionFields(t, l, base) :: Fits(f, l.size)
  {
    hide Size, Sized;
    forall f | f in SectionFields(t, l, base)
      ensures Fits(f, l.size)
    {
      var j :| 0 <= j < |t.relocs| && f == FieldOf(t, t.relocs[j], l, base);
      assert ValidReloc(t.relocs[j], |t.buf|);
    }
  }

  lemma ApplyNothing(b: seq<Byte>)
    ensures ApplyAll(b, []) == Ok(b)
  {
  }

  lemma {:induction false} ApplyConcat(img: seq<Byte>, a: seq<Field>, b: seq<Field>)
    requires forall f | f in a + b :: Fits(f, |img|)
    ensures (forall f | f in a :: Fits(f, |img|)) && (forall f | f in b :: Fits(f, |img|))
    ensures ApplyAll(img, a + b) == match ApplyAll(img, a) case Err(e) => Err(e) case Ok(mid) => ApplyAll(mid, b)
  {
    hide ApplyOne, Fits;
    assert forall f | f in a :: f in a + b;
    assert forall f | f in b :: f in a + b;
    if b == [] {
      assert a + b == a;
    } else {
      var n := |b| - 1;
      assert (a + b)[..|a + b| - 1] == a + b[..n];
      ApplyConcat(img, a, b[..n]);
    }
  }

  /** One more section: its patches continue from where the sections before it left the image. */
  lemma SectionStep(secs: seq<Sec>, l: Layout, base: int, i: nat, img: seq<Byte>)
    requires ValidSecs(secs) && (forall s | s in secs :: InPlace(l, s)) && i < |secs| && |img| == l.size
    requires forall f | f in FieldsOf(secs, l, base) :: Fits(f, |img|)
    ensures InPlace(l, secs[i]) && ValidSec(secs[i]) && (forall s | s in secs[..i] :: InPlace(l, s))
    ensures forall f | f in SectionFields(secs[i], l, base) :: Fits(f, |img|)
    ensures forall f | f in FieldsOf(secs[..i], l, base) :: Fits(f, |img|)
    ensures forall f | f in FieldsOf(secs[..i + 1], l, base) :: Fits(f, |img|)
    ensures ApplyAll(img, FieldsOf(secs[..i], l, base)).Ok? ==>
      && var mid := ApplyAll(img, FieldsOf(secs[..i], l, base)).value;
      && ApplyAll(img, FieldsOf(secs[..i + 1], l, base)) == ApplyAll(mid, SectionFields(secs[i], l, base))
      && (ApplyAll(mid, SectionFields(secs[i], l, base)).Err? ==>
            ApplyAll(img, FieldsOf(secs, l, base)) == ApplyAll(mid, SectionFields(secs[i], l, base)))
  {
    hide InPlace, ApplyAll, Fits, SectionFields, ValidSec;
    assert secs[i] in secs;
    FieldsPrefix(secs, l, base, i);
    var all, upto := FieldsOf(secs, l, base), FieldsOf(secs[..i + 1], l, base);
    assert forall f | f in upto :: f in all;
    ApplyConcat(img, FieldsOf(secs[..i], l, base), SectionFields(secs[i], l, base));
    if ApplyAll(img, upto).Err? {
      assert all[..|upto|] == upto;
      ErrSticks(img, all, |upto|);
    }
  }

  /** Every patch of every section, in order, up to the first that fails. */
  method PatchAll(asm: Assembler, base: int, externs: map<string, int>, l: Layout, out: array<Byte>,
                  ghost secs: seq<Sec>)
    returns (r: Result<()>)
    requires ValidSecs(secs) && (forall s | s in secs :: InPlace(l, s)) && out.Length == l.size
    requires |secs| == |asm.sections|
    requires forall i | 0 <= i < |secs| :: MirrorsSection(asm, externs, asm.sections[i], secs[i])
    requires forall f | f in FieldsOf(secs, l, base) :: Fits(f, out.Length)
    modifies out
    ensures r.Ok? ==> ApplyAll(old(out[..]), FieldsOf(secs, l, base)) == Ok(out[..])
    ensures r.Err? ==> ApplyAll(old(out[..]), FieldsOf(secs, l, base)) == Err(r.error)
  {
    hide FieldsOf, SectionFields, ApplyAll, InPlace, Fits, ValidSec;
    ghost var img := out[..];
    assert secs[..0] == [];
    NoFields(l, base, img);
    NamesPlaced(secs, l);
    for i := 0 to |asm.sections|
      invariant (forall s | s in secs[..i] :: InPlace(l, s))
        && (forall f | f in FieldsOf(secs[..i], l, base) :: Fits(f, |img|))
      invariant ApplyAll(img, FieldsOf(secs[..i], l, base)) == Ok(out[..])
    {
      SectionStep(secs, l, base, i, img);
      var one := PatchSection(asm, base, externs, l, asm.sections[i], out, secs[i]);
      if one.Err? {
        return one;
      }
    }
    assert secs[..|secs|] == secs;
    return Ok(());
  }

  /** The bytes of the image: a zeroed array, the sections copied in, then the patches. */
  method Render(asm: Assembler, base: int, externs: map<string, int>, l: Layout, ghost secs: seq<Sec>)
    returns (r: Result<seq<Byte>>)
    requires ValidSecs(secs) && (forall s | s in secs :: InPlace(l, s))
    requires |secs| == |asm.sections|
    requires forall i | 0 <= i < |secs| :: MirrorsSection(asm, externs, asm.sections[i], secs[i])
    requires forall f | f in FieldsOf(secs, l, base) :: Fits(f, l.size)
    ensures r == ApplyAll(Filled(secs, l), FieldsOf(secs, l, base))
  {
    hide Filled, FieldsOf, ApplyAll, InPlace, Fits, ValidSec;
    var out := new Byte[l.size](_ => 0);
    assert out[..] == Zeros(l.size);
    Fill(asm.sections, l, out, secs);
    var done := PatchAll(asm, base, externs, l, out, secs);
    return match done case Ok(_) => Ok(out[..]) case Err(e) => Err(e);
  }

  /**
    `link(asm, base, externs)` without the table of symbols: it succeeds or fails exactly as
    `LinkAll` says, with the same image or the same first error.
   */
  method Link(asm: Assembler, base: int, externs: map<string, int>, pageSize: nat) returns (r: Result<Image>)
    requires asm.Valid() && 0 < pageSize
    ensures ValidSecs(Snapshot(asm, externs)) && Snapshot(asm, externs) != []
    ensures r == LinkAll(Snapshot(asm, externs), base, pageSize)
  {
    hide Filled, FieldsOf, ApplyAll, LayOut, InPlace, WellLaid, Fits, ValidSecs, SecsOf, PowerOfTwo;
    SnapshotValid(asm, externs);
    ghost var secs := Snapshot(asm, externs);
    ShapesValid(secs);
    MaxAlignPositive(secs);
    var align := MaxAlignment(asm.sections, secs);
    if base % align != 0 {
      return Err(Misaligned);
    }
    var l := LayoutOf(asm.sections, pageSize, secs);
    LayoutPlaces(secs, pageSize);
    AllInPlace(secs, l);
    FieldsFit(secs, l, base);
    var data := Render(asm, base, externs, l, secs);
    return match data case Ok(d) => Ok(Image(base, d, l.offsets, l.execSize)) case Err(e) => Err(e);
  }

  lemma ShapesValid(secs: seq<Sec>)
    requires ValidSecs(secs)
    ensures forall s | s in secs :: 0 < s.align
  {
  }

  lemma NamesPlaced(secs: seq<Sec>, l: Layout)
    requires forall s | s in secs :: InPlace(l, s)
    ensures forall i | 0 <= i < |secs| :: secs[i].name in l.offsets
  {
    forall i | 0 <= i < |secs|
      ensures secs[i].name in l.offsets
    {
      assert secs[i] in secs;
    }
  }

  lemma NoFields(l: Layout, base: int, img: seq<Byte>)
    ensures FieldsOf([], l, base) == [] && ApplyAll(img, []) == Ok(img)
  {
  }

  /**
    `symbols` of the image: each bound label that has a name, at its offset. No two labels share a
    name, so no entry of this loop overwrites another.
   */
  method SymbolTable(asm: Assembler, offsets: map<string, nat>) returns (symbols: map<string, nat>)
    requires asm.Valid() && forall i | 0 <= i < |asm.sections| :: asm.sections[i].name in offsets
    ensures symbols.Keys == asm.symbols.Keys
    ensures forall n | n in asm.symbols ::
              && asm.symbols[n].section < |asm.sections|
              && symbols[n] == offsets[asm.sections[asm.symbols[n].section].name] + asm.symbols[n].offset
  {
    symbols := map[];
    hide ValidSections;
    for k := 0 to |asm.labels|
      invariant forall n :: n in symbols <==> exists j :: 0 <= j < k && asm.labels[j].name == Some(n)
      invariant forall n | n in symbols ::
                  n in asm.symbols && symbols[n] == offsets[asm.sections[asm.symbols[n].section].name]
                    + asm.symbols[n].offset
    {
      var lbl := asm.labels[k];
      assert lbl in asm.labels;
      if lbl.name.Some? {
        symbols := symbols[lbl.name.value := offsets[asm.sections[lbl.section].name] + lbl.offset];
      }
    }
    forall n | n in asm.symbols
      ensures n in symbols
    {
      var j :| 0 <= j < |asm.labels| && asm.labels[j] == asm.symbols[n];
    }
  }

  /** The rest of an Image: its assembler, the section sizes, and how many labels were bound by then. */
  datatype Linked = Linked(image: Image, asm: Assembler, symbols: map<string, nat>, sizes: map<string, nat>, bound: nat)

  method SectionSizes(asm: Assembler) returns (sizes: map<string, nat>)
    requires asm.Valid()
    ensures forall n :: n in sizes <==> exists i :: 0 <= i < |asm.sections| && asm.sections[i].name == n
    ensures forall i | 0 <= i < |asm.sections| :: sizes[asm.sections[i].name] == |asm.sections[i].buf|
  {
    hide Section.Valid, asm.LabelsOk, asm.SymbolsOk, asm.NamedOk, asm.SlotsOk;
    sizes := map[];
    for i := 0 to |asm.sections|
      invariant forall n :: n in sizes <==> exists j :: 0 <= j < i && asm.sections[j].name == n
      invariant forall j | 0 <= j < i :: sizes[asm.sections[j].name] == |asm.sections[j].buf|
    {
      sizes := sizes[asm.sections[i].name := |asm.sections[i].buf|];
    }
  }

  /** The labels that were bound by then lie in sections of the image, within the sizes they had. */
  ghost predicate Sound(linked: Linked)
    reads linked.asm, linked.asm.labels
  {
    && linked.bound <= |linked.asm.labels|
    && (forall n | n in linked.sizes :: n in linked.image.offsets)
    && (forall k | 0 <= k < linked.bound ::
          InImage(linked, linked.asm.labels[k]) && Listed(linked, linked.asm.labels[k]))
    && (forall n | n in linked.symbols :: NamesLabel(linked, n))
  }

  /** A label with a name is in the symbol table, at its offset in the image. */
  predicate Listed(linked: Linked, lbl: Label)
    reads linked.asm`sections, lbl
    requires InImage(linked, lbl) && forall n | n in linked.sizes :: n in linked.image.offsets
  {
    lbl.name.Some? ==>
      && lbl.name.value in linked.symbols
      && linked.symbols[lbl.name.value] == linked.image.offsets[linked.asm.sections[lbl.section].name] + lbl.offset
  }

  /** Some label that was bound by then has the name. */
  ghost predicate NamesLabel(linked: Linked, name: string)
    reads linked.asm`labels
  {
    exists k :: 0 <= k < linked.bound && k < |linked.asm.labels| && linked.asm.labels[k].name == Some(name)
  }

  predicate InImage(linked: Linked, lbl: Label)
    reads linked.asm`sections, lbl
  {
    && lbl.section < |linked.asm.sections|
    && var name := linked.asm.sections[lbl.section].name;
    name in linked.sizes && lbl.offset <= linked.sizes[name]
  }

  /** An image stays sound while its assembler goes on: labels are appended, sections only grow. */
  twostate lemma SoundStays(linked: Linked)
    requires old(Sound(linked))
    requires old(linked.asm.labels) <= linked.asm.labels && Extends(old(linked.asm.sections), linked.asm.sections)
    requires forall l | l in old(linked.asm.labels) :: unchanged(l)
    ensures Sound(linked)
  {
    forall k | 0 <= k < linked.bound
      ensures InImage(linked, linked.asm.labels[k]) && Listed(linked, linked.asm.labels[k])
    {
      assert old(linked.asm.labels)[k] in old(linked.asm.labels);
      assert old(InImage(linked, linked.asm.labels[k]) && Listed(linked, linked.asm.labels[k]));
    }
    forall n | n in linked.symbols
      ensures NamesLabel(linked, n)
    {
      assert old(NamesLabel(linked, n));
      var k :| 0 <= k < linked.bound && k < |old(linked.asm.labels)| && old(linked.asm.labels)[k].name == Some(n);
      assert linked.asm.labels[k].name == Some(n);
    }
  }

  /** Where the image has a label that was bound by then. */
  ghost function LabelAddress(linked: Linked, k: nat): int
    requires Sound(linked) && k < linked.bound
    reads linked.asm, linked.asm.labels
  {
    var lbl := linked.asm.labels[k];
    assert InImage(linked, lbl);
    linked.image.base + linked.image.offsets[linked.asm.sections[lbl.section].name] + lbl.offset
  }

  /** That is the address to which the link resolved the patches that refer to the label. */
  lemma LabelAddressIs(linked: Linked, k: nat, externs: map<string, int>)
    requires linked.asm.Valid() && Sound(linked) && k < linked.bound
    ensures k < |linked.asm.labels|
    ensures AddressAt(linked.asm, externs, linked.image.base, linked.image.offsets, ToLabel(linked.asm.labels[k]))
         == Some(LabelAddress(linked, k))
  {
    hide Listed;
    assert InImage(linked, linked.asm.labels[k]);
    assert linked.asm.labels[k] in linked.asm.labels;
  }

  /** `Image.address` for a name, at any time: the address of the label that had the name when linking. */
  method AddressOfName(linked: Linked, name: string) returns (r: Result<int>)
    requires Sound(linked)
    ensures r == Err(NoSymbol) || r.Ok?
    ensures r.Ok? <==> NamesLabel(linked, name)
    ensures forall k: nat | k < linked.bound && linked.asm.labels[k].name == Some(name) ::
      r == Ok(LabelAddress(linked, k))
  {
    if name !in linked.symbols {
      r := Err(NoSymbol);
    } else {
      r := Ok(linked.image.base + linked.symbols[name]);
    }
    forall k: nat | k < linked.bound && linked.asm.labels[k].name == Some(name)
      ensures r == Ok(LabelAddress(linked, k))
    {
      assert InImage(linked, linked.asm.labels[k]) && Listed(linked, linked.asm.labels[k]);
    }
  }

  /**
    `Image.address` for a label, asked at any time after the link: exactly the labels that were
    bound by then have an address in the image, whatever the assembler did since. Only the turn
    tells a later label at the very end of a section apart.
   */
  method AddressOf(linked: Linked, lbl: Label) returns (r: Result<int>)
    requires linked.asm.Valid() && Sound(linked)
    requires lbl.home == linked.asm ==> lbl in linked.asm.labels
    ensures lbl.home == null ==> r == Err(NeverBound)
    ensures lbl.home != null && lbl.home != linked.asm ==>
      var known := lbl.section < |lbl.home.sections| && lbl.home.sections[lbl.section].name in linked.sizes;
      r == Err(if known then ForeignLabel else BoundLater)
    ensures lbl.home == linked.asm ==>
      && (lbl.turn < linked.bound ==> linked.asm.labels[lbl.turn] == lbl)
      && r == if lbl.turn < linked.bound then Ok(LabelAddress(linked, lbl.turn)) else Err(BoundLater)
  {
    assert lbl.home == linked.asm && lbl.turn < linked.bound ==> InImage(linked, linked.asm.labels[lbl.turn]);
    var home := lbl.home;
    if home == null {
      return Err(NeverBound);
    }
    if home != linked.asm {
      // the section's name decides which error it is
      return if lbl.section < |home.sections| && home.sections[lbl.section].name in linked.sizes then Err(ForeignLabel)
             else Err(BoundLater);
    }
    var name := home.sections[lbl.section].name;
    if name !in linked.sizes || lbl.offset > linked.sizes[name] || lbl.turn >= linked.bound {
      return Err(BoundLater);
    }
    return Ok(linked.image.base + linked.image.offsets[name] + lbl.offset);
  }

  /** The tables of an Image. */
  method Tabulate(asm: Assembler, image: Image) returns (l: Linked)
    requires asm.Valid() && forall i | 0 <= i < |asm.sections| :: asm.sections[i].name in image.offsets
    ensures l.image == image && l.asm == asm && l.bound == |asm.labels| && l.symbols.Keys == asm.symbols.Keys
    ensures forall i | 0 <= i < |asm.sections| ::
              asm.sections[i].name in l.sizes && l.sizes[asm.sections[i].name] == |asm.sections[i].buf|
    ensures forall n | n in asm.symbols ::
              && asm.symbols[n].section < |asm.sections|
              && l.symbols[n] == image.offsets[asm.sections[asm.symbols[n].section].name] + asm.symbols[n].offset
    ensures Sound(l)
  {
    hide Sound, ValidSections;
    var symbols := SymbolTable(asm, image.offsets);
    var sizes := SectionSizes(asm);
    l := Linked(image, asm, symbols, sizes, |asm.labels|);
    SoundAtFirst(l);
  }

  /** `link` with all the tables of its Image. */
  method LinkImage(asm: Assembler, base: int, externs: map<string, int>, pageSize: nat) returns (r: Result<Linked>)
    requires asm.Valid() && 0 < pageSize
    ensures r.Ok? ==>
      && var l := r.value;
      && l.asm == asm && l.image.base == base && l.bound == |asm.labels| && l.symbols.Keys == asm.symbols.Keys
      && (forall i | 0 <= i < |asm.sections| ::
            asm.sections[i].name in l.sizes && l.sizes[asm.sections[i].name] == |asm.sections[i].buf|)
      && (forall n | n in asm.symbols ::
            && asm.symbols[n].section < |asm.sections| && asm.sections[asm.symbols[n].section].name in l.image.offsets
            && l.symbols[n] == l.image.offsets[asm.sections[asm.symbols[n].section].name] + asm.symbols[n].offset)
      && Sound(l)
    ensures ValidSecs(Snapshot(asm, externs)) && Snapshot(asm, externs) != []
    ensures LinkAll(Snapshot(asm, externs), base, pageSize) == match r case Ok(l) => Ok(l.image) case Err(e) => Err(e)
  {
    hide LinkAll, SecsOf, ValidSecs, Sound, ValidSections;
    var image := Link(asm, base, externs, pageSize);
    if image.Err? {
      return Err(image.error);
    }
    ImageNames(asm, externs, base, pageSize);
    var l := Tabulate(asm, image.value);
    return Ok(l);
  }

  lemma SoundAtFirst(linked: Linked)
    requires linked.asm.Valid() && linked.bound == |linked.asm.labels|
    requires forall i | 0 <= i < |linked.asm.sections| ::
               var s := linked.asm.sections[i];
               s.name in linked.sizes && linked.sizes[s.name] == |s.buf| && s.name in linked.image.offsets
    requires forall n :: n in linked.sizes ==>
      exists i :: 0 <= i < |linked.asm.sections| && linked.asm.sections[i].name == n
    requires linked.symbols.Keys == linked.asm.symbols.Keys
    requires forall n | n in linked.asm.symbols ::
               var lbl := linked.asm.symbols[n];
               && lbl.section < |linked.asm.sections| && linked.asm.sections[lbl.section].name in linked.image.offsets
               && linked.symbols[n] == linked.image.offsets[linked.asm.sections[lbl.section].name] + lbl.offset
    ensures Sound(linked)
  {
    forall k | 0 <= k < linked.bound
      ensures InImage(linked, linked.asm.labels[k]) && Listed(linked, linked.asm.labels[k])
    {
      assert linked.asm.labels[k] in linked.asm.labels;
    }
    forall n | n in linked.symbols
      ensures NamesLabel(linked, n)
    {
      assert linked.asm.symbols[n] in linked.asm.labels;
      var k :| 0 <= k < |linked.asm.labels| && linked.asm.labels[k] == linked.asm.symbols[n];
    }
  }

  lemma ImageNames(asm: Assembler, externs: map<string, int>, base: int, pageSize: nat)
    requires asm.Valid() && 0 < pageSize
    requires ValidSecs(Snapshot(asm, externs)) && Snapshot(asm, externs) != []
    requires LinkAll(Snapshot(asm, externs), base, pageSize).Ok?
    ensures LinkAll(Snapshot(asm, externs), base, pageSize).value.base == base
    ensures forall i | 0 <= i < |asm.sections| ::
              asm.sections[i].name in LinkAll(Snapshot(asm, externs), base, pageSize).value.offsets
  {
    hide LayOut, Filled, FieldsOf, ApplyAll, SecsOf, PowerOfTwo;
    SnapshotValid(asm, externs);
    var secs := Snapshot(asm, externs);
    LayoutPlaces(secs, pageSize);
    forall i | 0 <= i < |asm.sections|
      ensures asm.sections[i].name in LayOut(secs, pageSize).offsets
    {
      assert MirrorsSection(asm, externs, asm.sections[i], secs[i]);
      assert InPlace(LayOut(secs, pageSize), secs[i]);
    }
  }

  // ----- What a successful link gives every assembler -----

  lemma CleanAlone(asm: Assembler, externs: map<string, int>, s: Section, t: Sec, j: nat)
    requires MirrorsSection(asm, externs, s, t) && j < |s.patches| && Clean(s, j)
    requires forall p | p in s.patches :: Sized(p.kind)
    ensures Alone(t, j) && ValidReloc(t.relocs[j], |t.buf|)
  {
    hide Size, Sized, Template;
    forall k | 0 <= k < |t.relocs| && k != j
      ensures RelocsApart(t.relocs[j], t.relocs[k])
    {
      assert !Overlap(s.patches[j], s.patches[k]);
      SizePositive(s.patches[j].kind);
      SizePositive(s.patches[k].kind);
    }
  }

  /** In the image, the field of patch j of section i refers to the address, exactly if it is no odd jump. */
  ghost predicate LandsOn(asm: Assembler, img: Image, i: nat, j: nat, address: int)
    reads asm
  {
    && i < |asm.sections| && j < |asm.sections[i].patches|
    && var s, p := asm.sections[i], asm.sections[i].patches[j];
    && s.name in img.offsets && Sized(p.kind) && p.offset + Size(p.kind) <= |s.buf|
    && var at := img.offsets[s.name] + p.offset;
    && at + Size(p.kind) <= |img.data|
    && (Refers(p.kind, img.data[at..at + Size(p.kind)], img.base + at, address)
        <==> !OddJump(p.kind, s.buf[p.offset..p.offset + Size(p.kind)], address))
  }

  /**
    After a successful link of any reachable assembler, a clean patch's target has an address and
    the field refers to that address plus the addend, from wherever the field was placed; but a
    riscv64 `call` or `tail` does so only if that is even.
   */
  lemma PatchLands(asm: Assembler, externs: map<string, int>, base: int, pageSize: nat, i: nat, j: nat)
    requires asm.Valid() && 0 < pageSize
    requires ValidSecs(Snapshot(asm, externs)) && Snapshot(asm, externs) != []
    requires LinkAll(Snapshot(asm, externs), base, pageSize).Ok?
    requires i < |asm.sections| && j < |asm.sections[i].patches| && Clean(asm.sections[i], j)
    ensures var img := LinkAll(Snapshot(asm, externs), base, pageSize).value;
      var goal := AddressAt(asm, externs, base, img.offsets, asm.sections[i].patches[j].target);
      img.base == base && goal.Some? && LandsOn(asm, img, i, j, goal.value + asm.sections[i].patches[j].addend)
  {
    hide Size, Sized, Template, Refers, OddJump, Filled, FieldsOf, ApplyAll, LayOut, SecsOf, Resolve, PlaceOf;
    SnapshotValid(asm, externs);
    var secs := Snapshot(asm, externs);
    assert MirrorsSection(asm, externs, asm.sections[i], secs[i]);
    SizedPatches(asm.sections[i]);
    CleanAlone(asm, externs, asm.sections[i], secs[i], j);
    LinkedField(secs, base, pageSize, i, j);
    LinkedTables(asm, externs, base, pageSize);
    ResolvesTo(asm, externs, base, LayOut(secs, pageSize), asm.sections[i].patches[j].target);
    hide AddressAt;
  }

  /** So a clean patch to an extern refers to the address given to the link, else to the extern's own. */
  lemma ExternLands(asm: Assembler, externs: map<string, int>, base: int, pageSize: nat, i: nat, j: nat, e: Extern)
    requires asm.Valid() && 0 < pageSize
    requires ValidSecs(Snapshot(asm, externs)) && Snapshot(asm, externs) != []
    requires LinkAll(Snapshot(asm, externs), base, pageSize).Ok?
    requires i < |asm.sections| && j < |asm.sections[i].patches| && Clean(asm.sections[i], j)
    requires asm.sections[i].patches[j].target == ToExtern(e)
    ensures e.name in externs || e.address.Some?
    ensures LandsOn(asm, LinkAll(Snapshot(asm, externs), base, pageSize).value, i, j,
                    (if e.name in externs then externs[e.name] else e.address.value)
                    + asm.sections[i].patches[j].addend)
  {
    hide LandsOn, LinkAll, SecsOf, Clean;
    PatchLands(asm, externs, base, pageSize, i, j);
  }

  /** And one to a label refers to its place in its section, wherever that is. */
  lemma LabelLands(asm: Assembler, externs: map<string, int>, base: int, pageSize: nat, i: nat, j: nat, lbl: Label)
    requires asm.Valid() && 0 < pageSize
    requires ValidSecs(Snapshot(asm, externs)) && Snapshot(asm, externs) != []
    requires LinkAll(Snapshot(asm, externs), base, pageSize).Ok?
    requires i < |asm.sections| && j < |asm.sections[i].patches| && Clean(asm.sections[i], j)
    requires asm.sections[i].patches[j].target == ToLabel(lbl)
    ensures lbl.home == asm && lbl.section < |asm.sections|
    ensures var img, section := LinkAll(Snapshot(asm, externs), base, pageSize).value, asm.sections[lbl.section].name;
      && section in img.offsets
      && LandsOn(asm, img, i, j, base + img.offsets[section] + lbl.offset + asm.sections[i].patches[j].addend)
  {
    hide LandsOn, LinkAll, SecsOf, Clean;
    PatchLands(asm, externs, base, pageSize, i, j);
  }

  /** Patch j of section i has a target with an address, and its kind accepts it. */
  ghost predicate PatchFits(asm: Assembler, externs: map<string, int>, base: int, offsets: map<string, nat>, i: nat,
                            j: nat)
    requires i < |asm.sections| && j < |asm.sections[i].patches|
    reads *
  {
    && var s, p := asm.sections[i], asm.sections[i].patches[j];
    && Sized(p.kind) && p.offset + Size(p.kind) <= |s.buf| && s.name in offsets
    && AddressAt(asm, externs, base, offsets, p.target).Some?
    && Patched(p.kind, s.buf[p.offset..p.offset + Size(p.kind)],
               AddressAt(asm, externs, base, offsets, p.target).value + p.addend,
               base + offsets[s.name] + p.offset).Some?
  }

  /**
    The link of any reachable assembler succeeds exactly if the base is a multiple of every section's
    alignment and every patch has a target with an address that its kind accepts.
   */
  lemma LinkSucceeds(asm: Assembler, externs: map<string, int>, base: int, pageSize: nat)
    requires asm.Valid() && 0 < pageSize
    ensures ValidSecs(Snapshot(asm, externs)) && Snapshot(asm, externs) != []
    ensures forall i | 0 <= i < |asm.sections| :: 0 < asm.sections[i].align
    ensures LinkAll(Snapshot(asm, externs), base, pageSize).Ok? <==>
      && (forall i | 0 <= i < |asm.sections| :: base % asm.sections[i].align == 0)
      && (forall i, j | 0 <= i < |asm.sections| && 0 <= j < |asm.sections[i].patches| ::
            PatchFits(asm, externs, base, LayOut(Snapshot(asm, externs), pageSize).offsets, i, j))
  {
    hide LinkAll, LayOut, SecsOf, PatchFits, PatchSucceeds, PowerOfTwo, MaxAlign, ValidSections, Section.Valid;
    SnapshotValid(asm, externs);
    var secs := Snapshot(asm, externs);
    var l := LayOut(secs, pageSize);
    LinkFailsExactly(secs, base, pageSize);
    BaseAligned(asm, externs, base);
    forall i, j | 0 <= i < |asm.sections| && 0 <= j < |asm.sections[i].patches|
      ensures |secs| == |asm.sections| && |secs[i].relocs| == |asm.sections[i].patches| && InPlace(l, secs[i])
      ensures PatchFits(asm, externs, base, l.offsets, i, j) == PatchSucceeds(secs[i], secs[i].relocs[j], l, base)
    {
      assert MirrorsSection(asm, externs, asm.sections[i], secs[i]);
      FitsMirror(asm, externs, base, l, i, j, secs[i]);
    }
    assert forall i | 0 <= i < |secs| :: MirrorsSection(asm, externs, asm.sections[i], secs[i]);
  }

  lemma FitsMirror(asm: Assembler, externs: map<string, int>, base: int, l: Layout, i: nat, j: nat, t: Sec)
    requires i < |asm.sections| && j < |asm.sections[i].patches|
    requires MirrorsSection(asm, externs, asm.sections[i], t) && InPlace(l, t)
    ensures PatchFits(asm, externs, base, l.offsets, i, j) == PatchSucceeds(t, t.relocs[j], l, base)
  {
    hide Patched, Size, Sized, Resolve, PlaceOf, AddressAt;
    ResolvesTo(asm, externs, base, l, asm.sections[i].patches[j].target);
  }

  lemma BaseAligned(asm: Assembler, externs: map<string, int>, base: int)
    requires asm.Valid()
    requires ValidSecs(Snapshot(asm, externs)) && Snapshot(asm, externs) != []
    ensures 0 < MaxAlign(Snapshot(asm, externs)) && forall i | 0 <= i < |asm.sections| :: 0 < asm.sections[i].align
    ensures base % MaxAlign(Snapshot(asm, externs)) == 0
       <==> forall i | 0 <= i < |asm.sections| :: base % asm.sections[i].align == 0
  {
    hide SecsOf, PowerOfTwo, MaxAlign, ValidSections;
    SnapshotValid(asm, externs);
    var secs := Snapshot(asm, externs);
    MaxAlignPositive(secs);
    forall i | 0 <= i < |asm.sections|
      ensures |secs| == |asm.sections| && secs[i].align == asm.sections[i].align && 0 < secs[i].align
      ensures base % MaxAlign(secs) == 0 ==> base % secs[i].align == 0
    {
      assert MirrorsSection(asm, externs, asm.sections[i], secs[i]);
      MaxAlignOf(secs, i);
      assert ValidSec(secs[i]);
      PowersDivide(secs[i].align, MaxAlign(secs));
      if base % MaxAlign(secs) == 0 {
        MultipleOfMultiple(base, MaxAlign(secs), secs[i].align);
      }
    }
    MaxAlignOf(secs, 0);
    var k :| 0 <= k < |secs| && secs[k].align == MaxAlign(secs);
  }

  /** A patch in `own` writes byte b of the section. */
  ghost predicate Written(s: Section, own: set<nat>, b: nat)
  {
    exists j :: j in own && j < |s.patches| && s.patches[j].offset <= b < s.patches[j].offset + Size(s.patches[j].kind)
  }

  /** The linked image holds an installed instruction, except where its own patches write. */
  lemma LinkedCode(asm: Assembler, externs: map<string, int>, base: int, pageSize: nat, i: nat,
                   start: nat, code: seq<Byte>, own: set<nat>)
    requires asm.Valid() && 0 < pageSize
    requires ValidSecs(Snapshot(asm, externs)) && Snapshot(asm, externs) != []
    requires LinkAll(Snapshot(asm, externs), base, pageSize).Ok?
    requires i < |asm.sections| && code != [] && Installed(asm.sections[i], start, code, own)
    ensures var img := LinkAll(Snapshot(asm, externs), base, pageSize).value;
      var s := asm.sections[i];
      && s.name in img.offsets && img.offsets[s.name] + start + |code| <= |img.data|
      && forall b: nat | b < |code| && !Written(s, own, start + b) ::
        img.data[img.offsets[s.name] + start + b] == code[b]
  {
    hide Size, Sized, LinkAll, LayOut, SecsOf, Written;
    SnapshotValid(asm, externs);
    var secs, s := Snapshot(asm, externs), asm.sections[i];
    assert MirrorsSection(asm, externs, s, secs[i]);
    LinkedSize(secs, base, pageSize);
    SectionFits(secs, base, pageSize, i);
    forall b: nat | b < |code| && !Written(s, own, start + b)
      ensures var img := LinkAll(secs, base, pageSize).value;
        img.data[img.offsets[s.name] + start + b] == code[b]
    {
      forall j | 0 <= j < |s.patches|
        ensures start + b < s.patches[j].offset || s.patches[j].offset + Size(s.patches[j].kind) <= start + b
      {
        NotWritten(s, start, code, own, b, j);
      }
      SpanByte(secs, base, pageSize, i, start + b);
      assert s.buf[start..start + |code|][b] == s.buf[start + b];
    }
  }

  lemma NotWritten(s: Section, start: nat, code: seq<Byte>, own: set<nat>, b: nat, j: nat)
    requires Installed(s, start, code, own) && b < |code| && !Written(s, own, start + b) && j < |s.patches|
    ensures start + b < s.patches[j].offset || s.patches[j].offset + Size(s.patches[j].kind) <= start + b
  {
  }

  lemma SectionFits(secs: seq<Sec>, base: int, pageSize: nat, i: nat)
    requires ValidSecs(secs) && secs != [] && 0 < pageSize && i < |secs|
    requires LinkAll(secs, base, pageSize).Ok?
    ensures secs[i].name in LayOut(secs, pageSize).offsets
    ensures LayOut(secs, pageSize).offsets[secs[i].name] + |secs[i].buf| <= LayOut(secs, pageSize).size
  {
    hide LayOut, LinkAll;
    LayoutPlaces(secs, pageSize);
    assert InPlace(LayOut(secs, pageSize), secs[i]);
  }

  lemma SizedPatches(s: Section)
    requires s.Valid()
    ensures forall p | p in s.patches :: Sized(p.kind)
  {
    forall p | p in s.patches
      ensures Sized(p.kind)
    {
      assert s.Holds(p);
    }
  }

  /** A label at a multiple of n in a section aligned to at least n, as `align(n)` leaves it. */
  lemma AlignedLabel(asm: Assembler, externs: map<string, int>, base: int, pageSize: nat, lbl: Label, n: nat)
    requires asm.Valid() && 0 < pageSize && lbl in asm.labels
    requires ValidSecs(Snapshot(asm, externs)) && Snapshot(asm, externs) != []
    requires LinkAll(Snapshot(asm, externs), base, pageSize).Ok?
    requires lbl.section < |asm.sections| && PowerOfTwo(n) && n <= asm.sections[lbl.section].align
      && lbl.offset % n == 0
    ensures var img := LinkAll(Snapshot(asm, externs), base, pageSize).value;
      && asm.sections[lbl.section].name in img.offsets
      && (base + img.offsets[asm.sections[lbl.section].name] + lbl.offset) % n == 0
  {
    hide Filled, FieldsOf, ApplyAll, LayOut, SecsOf, PowerOfTwo;
    SnapshotValid(asm, externs);
    var secs := Snapshot(asm, externs);
    assert MirrorsSection(asm, externs, asm.sections[lbl.section], secs[lbl.section]);
    LinkedAlignment(secs, base, pageSize, lbl.section, lbl.offset, n);
  }

  /** Every extern slot ends up at an address that is a multiple of 8. */
  lemma AlignedSlot(asm: Assembler, externs: map<string, int>, base: int, pageSize: nat, name: string)
    requires asm.Valid() && 0 < pageSize && name in asm.externSlots
    requires ValidSecs(Snapshot(asm, externs)) && Snapshot(asm, externs) != []
    requires LinkAll(Snapshot(asm, externs), base, pageSize).Ok?
    ensures var img, slot := LinkAll(Snapshot(asm, externs), base, pageSize).value, asm.externSlots[name];
      && slot.section < |asm.sections| && asm.sections[slot.section].name in img.offsets
      && (base + img.offsets[asm.sections[slot.section].name] + slot.offset) % 8 == 0
  {
    hide Filled, FieldsOf, ApplyAll, LayOut, SecsOf, PowerOfTwo, LinkAll;
    var lbl := asm.externSlots[name];
    assert asm.SlotOk(name, lbl, asm.sections);
    assert asm.sections[lbl.section].Valid();
    PowersUsed();
    AlignedLabel(asm, externs, base, pageSize, lbl, 8);
  }

  /** Patch j of a slot's section is the one that fills the slot, with the address of an extern of that name. */
  ghost predicate SlotPatch(asm: Assembler, name: string, e: Extern, j: nat)
    reads asm, asm.externSlots.Values
  {
    && name in asm.externSlots && e.name == name
    && var slot := asm.externSlots[name];
    && slot.section < |asm.sections| && j < |asm.sections[slot.section].patches|
    && asm.sections[slot.section].patches[j] == PatchRecord(slot.offset, Abs(8), ToExtern(e), 0)
  }

  lemma SlotHasPatch(asm: Assembler, name: string)
    requires asm.Valid() && name in asm.externSlots
    ensures exists e: Extern, j: nat :: SlotPatch(asm, name, e, j)
  {
    hide ValidSections, Assembler.LabelsOk, Assembler.SymbolsOk, Assembler.NamedOk;
    var slot := asm.externSlots[name];
    assert asm.SlotOk(name, slot, asm.sections);
    var e: Extern :| e.name == name
      && PatchRecord(slot.offset, Abs(8), ToExtern(e), 0) in asm.sections[slot.section].patches;
    var j :| 0 <= j < |asm.sections[slot.section].patches|
      && asm.sections[slot.section].patches[j] == PatchRecord(slot.offset, Abs(8), ToExtern(e), 0);
    assert SlotPatch(asm, name, e, j);
  }

  /**
    After a successful link the eight bytes at a slot's address are the address of its extern, if no
    other patch was put over the slot.
   */
  lemma SlotPointer(asm: Assembler, externs: map<string, int>, base: int, pageSize: nat, name: string, e: Extern,
                    j: nat)
    requires asm.Valid() && 0 < pageSize
    requires ValidSecs(Snapshot(asm, externs)) && Snapshot(asm, externs) != []
    requires LinkAll(Snapshot(asm, externs), base, pageSize).Ok?
    requires SlotPatch(asm, name, e, j) && Clean(asm.sections[asm.externSlots[name].section], j)
    ensures var img := LinkAll(Snapshot(asm, externs), base, pageSize).value;
      var slot := AddressAt(asm, externs, base, img.offsets, ToLabel(asm.externSlots[name]));
      var goal := AddressAt(asm, externs, base, img.offsets, ToExtern(e));
      && slot.Some? && goal.Some? && 0 <= slot.value - base && slot.value - base + 8 <= |img.data|
      && Bits.SameAddress(FromLE(img.data[slot.value - base..slot.value - base + 8]), goal.value)
  {
    hide LinkAll, LayOut, SecsOf, FromLE, Clean, ValidSections;
    var slot := asm.externSlots[name];
    assert asm.SlotOk(name, slot, asm.sections);
    hide Assembler.LabelsOk, Assembler.SymbolsOk, Assembler.NamedOk, Assembler.SlotsOk;
    PatchLands(asm, externs, base, pageSize, slot.section, j);
    var img := LinkAll(Snapshot(asm, externs), base, pageSize).value;
    var at := img.offsets[asm.sections[slot.section].name] + slot.offset;
    var goal := AddressAt(asm, externs, base, img.offsets, ToExtern(e));
    assert Size(Abs(8)) == 8 && Sized(Abs(8));
    AbsReads(img.data[at..at + 8], goal.value);
  }

  lemma LinkedTables(asm: Assembler, externs: map<string, int>, base: int, pageSize: nat)
    requires asm.Valid() && 0 < pageSize
    requires ValidSecs(Snapshot(asm, externs)) && Snapshot(asm, externs) != []
    requires LinkAll(Snapshot(asm, externs), base, pageSize).Ok?
    ensures var img := LinkAll(Snapshot(asm, externs), base, pageSize).value;
      img.base == base && img.offsets == LayOut(Snapshot(asm, externs), pageSize).offsets
  {
    hide LayOut, SecsOf, ValidSecs, Filled, FieldsOf, ApplyAll;
  }

  /** Eight bytes that refer to an address, read as an unsigned number, are that address. */
  lemma AbsReads(field: seq<Byte>, goal: int)
    requires |field| == 8 && (goal == FromLE(field) || goal == Bits.Wrap(FromLE(field), Half(8)))
    ensures Bits.SameAddress(FromLE(field), goal)
  {
    hide FromLE;
    Bits.PowTable();
  }

  predicate Dword(n: int)
  {
    -0x8000_0000 <= n < 0x8000_0000
  }

  /** Some 32 bit displacement leads from one address to the other, with the wrap-around of the processor's sum. */
  ghost predicate Expressible(from: int, to: int)
  {
    exists d: int | Dword(d) :: Bits.SameAddress(from + d, to)
  }

  lemma ExpressibleNearest(from: int, to: int)
    ensures Expressible(from, to) <==> Dword(Bits.Nearest(to, from) - from)
  {
    hide Bits.Nearest, Bits.SameAddress;
    if Dword(Bits.Nearest(to, from) - from) {
      assert Bits.SameAddress(from + (Bits.Nearest(to, from) - from), to);
    }
    forall d: int | Dword(d) && Bits.SameAddress(from + d, to)
      ensures Dword(Bits.Nearest(to, from) - from)
    {
      Bits.ReachesNearest(from + d, to, from);
    }
  }

  /**
    A rip-relative operand: however many bytes follow the displacement, the instruction at `insn`
    with `total` bytes reads its 32 bit displacement from its own end, and so reaches the label
    plus the operand's displacement. It is refused exactly if 32 bits cannot express that, unless
    the shorter way leads around the end of the address space and 32 bits can.
   */
  lemma RipOperandExact(f: Fixup, total: nat, insn: int, target: int)
    requires f.riprel && f.kind == Rel(4)
    ensures var field := Patched(f.kind, Zeros(4), target + Adjusted(f, total), insn + f.off);
      var end, goal := insn + total, target + f.addend;
      && (field.Some? <==> Dword(goal - end))
      && (field.Some? ==> end + Bits.Wrap(FromLE(field.value), 0x8000_0000) == goal)
      && ((field.Some? <==> Expressible(end, goal))
          <==> Bits.Nearest(goal, end) == goal || !Dword(Bits.Nearest(goal, end) - end))
  {
    hide ToLE, FromLE, Bits.Nearest, Expressible;
    Bits.PowTable();
    ExpressibleNearest(insn + total, target + f.addend);
    var field := Patched(f.kind, Zeros(4), target + Adjusted(f, total), insn + f.off);
    if field.Some? {
      Lands(f.kind, Zeros(4), target + Adjusted(f, total), insn + f.off);
    }
  }

  /** A rip-relative fixup: a 32 bit displacement to a label, or to an extern's slot. */
  predicate RipFixup(f: Fixup, slots: map<string, Label>)
  {
    && f.riprel && (f.kind == Rel(4) || f.kind == Slot(Rel(4)))
    && (f.kind.Slot? ==> f.target.ToExtern? && f.target.extern.name in slots)
  }

  /**
    From `flush` through `link`: the instruction of `total` bytes that was flushed at `start` of
    section i, once linked, reads at its fixup the displacement that leads from its own end to the
    label, or the extern's slot, plus the operand's displacement.
   */
  lemma RipOperandLinked(asm: Assembler, externs: map<string, int>, base: int, pageSize: nat, i: nat, j: nat,
                         f: Fixup, slots: map<string, Label>, start: nat, total: nat)
    requires asm.Valid() && 0 < pageSize
    requires ValidSecs(Snapshot(asm, externs)) && Snapshot(asm, externs) != []
    requires LinkAll(Snapshot(asm, externs), base, pageSize).Ok?
    requires i < |asm.sections| && j < |asm.sections[i].patches| && Clean(asm.sections[i], j)
    requires RipFixup(f, slots) && asm.sections[i].patches[j] == RecordOf(f, slots, start, total)
    ensures var img := LinkAll(Snapshot(asm, externs), base, pageSize).value;
      var goal := AddressAt(asm, externs, base, img.offsets,
                            if f.kind.Slot? then ToLabel(slots[f.target.extern.name]) else f.target);
      && asm.sections[i].name in img.offsets && goal.Some?
      && var at := img.offsets[asm.sections[i].name] + start + f.off;
      && at + 4 <= |img.data|
      && base + img.offsets[asm.sections[i].name] + start + total + Bits.Wrap(FromLE(img.data[at..at + 4]), 0x8000_0000)
         == goal.value + f.addend
  {
    hide LinkAll, LayOut, SecsOf, AddressAt, FromLE, Clean, ValidSecs, Bits.Wrap;
    PatchLands(asm, externs, base, pageSize, i, j);
    Bits.PowTable();
  }
}
