/**
  What jita/core/link.py computes, on values: section layout, the image before patching, and the
  patches applied to it one after the other. `Linker` proves the imperative link against these.
 */
module Linking {
  import Bits
  import opened Bytes
  import opened Patch
  import opened Wrappers

  datatype LinkError = Misaligned | NeverBound | ForeignLabel | NoAddress | DoesNotFit | BoundLater | NoSymbol

  datatype Result<+T> = Ok(value: T) | Err(error: LinkError)

  /** Where a patch target is: in a section of this assembler, nowhere, elsewhere, or fixed. */
  datatype Place = At(section: string, offset: nat) | Nowhere | Elsewhere | Fixed(address: int) | Unknown

  datatype Reloc = Reloc(offset: nat, kind: Kind, target: Place, addend: int)

  datatype Sec = Sec(name: string, buf: seq<Byte>, relocs: seq<Reloc>, align: nat, writable: bool)

  predicate ValidReloc(r: Reloc, size: nat)
  {
    Sized(r.kind) && r.offset + Size(r.kind) <= size
  }

  predicate Distinct(secs: seq<Sec>)
  {
    forall i, j | 0 <= i < j < |secs| :: secs[i].name != secs[j].name
  }

  predicate ValidSec(s: Sec)
  {
    0 < s.align && forall r | r in s.relocs :: ValidReloc(r, |s.buf|)
  }

  predicate ValidSecs(secs: seq<Sec>)
  {
    Distinct(secs) && forall s | s in secs :: ValidSec(s)
  }

  // ----- Layout -----

  /** The next multiple of the alignment. */
  function AlignUp(pos: nat, align: nat): (r: nat)
    requires 0 < align
    ensures pos <= r < pos + align && r % align == 0
  {
    var m := (0 - pos) % align;
    Bits.DivModUnique(pos + m, align, -((0 - pos) / align), 0);
    pos + m
  }

  /** Where `place(pos, writable)` ends. */
  function EndOf(secs: seq<Sec>, pos: nat, writable: bool): (end: nat)
    requires forall s | s in secs :: 0 < s.align
    ensures pos <= end
  {
    if secs == [] then pos
    else
      var front, last := secs[..|secs| - 1], secs[|secs| - 1];
      var p := EndOf(front, pos, writable);
      if last.writable == writable then AlignUp(p, last.align) + |last.buf| else p
  }

  /** The offsets that `place(pos, writable)` gives to the sections it picks. */
  function OffsetsOf(secs: seq<Sec>, pos: nat, writable: bool): map<string, nat>
    requires forall s | s in secs :: 0 < s.align
  {
    if secs == [] then map[]
    else
      var front, last := secs[..|secs| - 1], secs[|secs| - 1];
      var offsets := OffsetsOf(front, pos, writable);
      if last.writable == writable then offsets[last.name := AlignUp(EndOf(front, pos, writable), last.align)]
      else offsets
  }

  datatype Layout = Layout(offsets: map<string, nat>, size: nat, execSize: nat)

  predicate AnyWritable(secs: seq<Sec>)
  {
    exists s :: s in secs && s.writable
  }

  function LayOut(secs: seq<Sec>, pageSize: nat): Layout
    requires 0 < pageSize && forall s | s in secs :: 0 < s.align
  {
    var pos := EndOf(secs, 0, false);
    var execSize := AlignUp(pos, pageSize);
    Layout(OffsetsOf(secs, 0, false) + OffsetsOf(secs, execSize, true),
           if AnyWritable(secs) then EndOf(secs, execSize, true) else pos,
           execSize)
  }

  lemma {:induction false} PlacedNames(secs: seq<Sec>, pos: nat, w: bool, name: string)
    requires ValidSecs(secs)
    requires name in OffsetsOf(secs, pos, w)
    ensures exists i :: 0 <= i < |secs| && secs[i].writable == w && secs[i].name == name
  {
    var n := |secs| - 1;
    if secs[n].writable == w && secs[n].name == name {
    } else {
      PlacedNames(secs[..n], pos, w, name);
      var i :| 0 <= i < n && secs[..n][i].writable == w && secs[..n][i].name == name;
      assert secs[i].name == name;
    }
  }

  lemma {:induction false} Placed(secs: seq<Sec>, pos: nat, w: bool, i: nat)
    requires ValidSecs(secs) && i < |secs| && secs[i].writable == w
    ensures secs[i].name in OffsetsOf(secs, pos, w)
    ensures pos <= OffsetsOf(secs, pos, w)[secs[i].name]
    ensures OffsetsOf(secs, pos, w)[secs[i].name] % secs[i].align == 0
    ensures OffsetsOf(secs, pos, w)[secs[i].name] + |secs[i].buf| <= EndOf(secs, pos, w)
  {
    var n := |secs| - 1;
    if i < n {
      Placed(secs[..n], pos, w, i);
      assert secs[i].name != secs[n].name;
    }
  }

  lemma {:induction false} InOrder(secs: seq<Sec>, pos: nat, w: bool, i: nat, j: nat)
    requires ValidSecs(secs) && i < j < |secs| && secs[i].writable == secs[j].writable == w
    ensures secs[i].name in OffsetsOf(secs, pos, w) && secs[j].name in OffsetsOf(secs, pos, w)
    ensures OffsetsOf(secs, pos, w)[secs[i].name] + |secs[i].buf| <= OffsetsOf(secs, pos, w)[secs[j].name]
  {
    var n := |secs| - 1;
    var front := secs[..n];
    assert secs[i].name != secs[n].name;
    if j < n {
      InOrder(front, pos, w, i, j);
      assert secs[j].name != secs[n].name;
    } else {
      Placed(front, pos, w, i);
    }
  }

  lemma PlacedIn(secs: seq<Sec>, pageSize: nat, i: nat)
    requires 0 < pageSize && ValidSecs(secs) && i < |secs|
    ensures var l := LayOut(secs, pageSize);
      var pass := OffsetsOf(secs, if secs[i].writable then l.execSize else 0, secs[i].writable);
      && secs[i].name in pass && secs[i].name in l.offsets && l.offsets[secs[i].name] == pass[secs[i].name]
      && l.offsets[secs[i].name] % secs[i].align == 0
      && l.offsets[secs[i].name] + |secs[i].buf| <= l.size
      && (if secs[i].writable then l.execSize <= l.offsets[secs[i].name]
          else l.offsets[secs[i].name] + |secs[i].buf| <= l.execSize)
  {
    hide AlignUp, EndOf, OffsetsOf;
    var execSize := AlignUp(EndOf(secs, 0, false), pageSize);
    if secs[i].writable {
      Placed(secs, execSize, true, i);
    } else {
      Placed(secs, 0, false, i);
      if secs[i].name in OffsetsOf(secs, execSize, true) {
        PlacedNames(secs, execSize, true, secs[i].name);
      }
    }
  }

  predicate Disjoint(l: Layout, s: Sec, t: Sec)
  {
    && s.name in l.offsets && t.name in l.offsets
    && (|| l.offsets[s.name] + |s.buf| <= l.offsets[t.name]
        || l.offsets[t.name] + |t.buf| <= l.offsets[s.name])
  }

  predicate InPlace(l: Layout, s: Sec)
  {
    && s.name in l.offsets
    && 0 < s.align
    && l.offsets[s.name] % s.align == 0
    && l.offsets[s.name] + |s.buf| <= l.size
    && (if s.writable then l.execSize <= l.offsets[s.name] else l.offsets[s.name] + |s.buf| <= l.execSize)
  }

  predicate WellLaid(secs: seq<Sec>, l: Layout)
  {
    && (forall i | 0 <= i < |secs| :: InPlace(l, secs[i]))
    && (forall i, j | 0 <= i < j < |secs| :: Disjoint(l, secs[i], secs[j]))
  }

  /**
    Every section is placed at a multiple of its alignment, the read-only ones below the page
    boundary `execSize` and the writable ones at or above it, and no two overlap.
   */
  lemma LayoutPlaces(secs: seq<Sec>, pageSize: nat)
    requires 0 < pageSize && ValidSecs(secs)
    ensures LayOut(secs, pageSize).execSize % pageSize == 0
    ensures WellLaid(secs, LayOut(secs, pageSize))
  {
    hide AlignUp, EndOf, OffsetsOf;
    var l := LayOut(secs, pageSize);
    forall i | 0 <= i < |secs|
      ensures InPlace(l, secs[i])
    {
      PlacedIn(secs, pageSize, i);
    }
    forall i, j | 0 <= i < j < |secs|
      ensures Disjoint(l, secs[i], secs[j])
    {
      PlacedIn(secs, pageSize, i);
      PlacedIn(secs, pageSize, j);
      if secs[i].writable == secs[j].writable {
        InOrder(secs, if secs[i].writable then l.execSize else 0, secs[i].writable, i, j);
      }
    }
  }

  /** Where the last of these sections of a kind, read-only or writable, ends; before the first, where they start. */
  function Reached(secs: seq<Sec>, l: Layout, writable: bool): nat
  {
    if secs == [] then if writable then l.execSize else 0
    else
      var last := secs[|secs| - 1];
      if last.writable == writable && last.name in l.offsets then l.offsets[last.name] + |last.buf|
      else Reached(secs[..|secs| - 1], l, writable)
  }

  lemma {:induction false} OffsetIs(secs: seq<Sec>, pos: nat, w: bool, i: nat)
    requires ValidSecs(secs) && i < |secs| && secs[i].writable == w
    ensures secs[i].name in OffsetsOf(secs, pos, w)
    ensures OffsetsOf(secs, pos, w)[secs[i].name] == AlignUp(EndOf(secs[..i], pos, w), secs[i].align)
  {
    var n := |secs| - 1;
    if i < n {
      OffsetIs(secs[..n], pos, w, i);
      assert secs[i].name != secs[n].name && secs[..n][..i] == secs[..i];
    }
  }

  lemma {:induction false} ReachedIs(secs: seq<Sec>, pageSize: nat, k: nat, w: bool)
    requires 0 < pageSize && ValidSecs(secs) && k <= |secs|
    ensures var l := LayOut(secs, pageSize);
      Reached(secs[..k], l, w) == EndOf(secs[..k], if w then l.execSize else 0, w)
  {
    if k > 0 {
      hide LayOut, AlignUp, OffsetsOf;
      assert secs[..k][..k - 1] == secs[..k - 1];
      ReachedIs(secs, pageSize, k - 1, w);
      PlacedIn(secs, pageSize, k - 1);
      if secs[k - 1].writable == w {
        OffsetIs(secs, if w then LayOut(secs, pageSize).execSize else 0, w, k - 1);
      }
    }
  }

  /**
    Sections are placed in order of creation and without gaps but for alignment: each starts less than
    its alignment after the end of the one before it of its kind, the writable ones less than a page
    after the last read-only one, and the image ends where the last one does.
   */
  lemma LayoutTight(secs: seq<Sec>, pageSize: nat, i: nat)
    requires 0 < pageSize && ValidSecs(secs) && i < |secs|
    ensures var l, s := LayOut(secs, pageSize), secs[i];
      && s.name in l.offsets
      && Reached(secs[..i], l, s.writable) <= l.offsets[s.name] < Reached(secs[..i], l, s.writable) + s.align
      && Reached(secs, l, false) <= l.execSize < Reached(secs, l, false) + pageSize
      && l.size == Reached(secs, l, exists k :: 0 <= k < |secs| && secs[k].writable)
  {
    hide OffsetsOf, EndOf;
    ReachedIs(secs, pageSize, i, secs[i].writable);
    ReachedIs(secs, pageSize, |secs|, false);
    ReachedIs(secs, pageSize, |secs|, true);
    assert secs[..|secs|] == secs;
    PlacedIn(secs, pageSize, i);
    OffsetIs(secs, if secs[i].writable then LayOut(secs, pageSize).execSize else 0, secs[i].writable, i);
    assert AnyWritable(secs) <==> exists k :: 0 <= k < |secs| && secs[k].writable;
  }

  // ----- The image before patching -----

  function Splice(b: seq<Byte>, at: nat, v: seq<Byte>): (r: seq<Byte>)
    requires at + |v| <= |b|
    ensures |r| == |b|
  {
    b[..at] + v + b[at + |v|..]
  }

  /** The sections copied into a zeroed image, one after the other. */
  function Filled(secs: seq<Sec>, l: Layout): (img: seq<Byte>)
    requires forall s | s in secs :: InPlace(l, s)
    ensures |img| == l.size
  {
    if secs == [] then Zeros(l.size)
    else
      var last := secs[|secs| - 1];
      assert InPlace(l, last);
      Splice(Filled(secs[..|secs| - 1], l), l.offsets[last.name], last.buf)
  }

  predicate Inside(l: Layout, s: Sec, b: nat)
    requires InPlace(l, s)
  {
    l.offsets[s.name] <= b < l.offsets[s.name] + |s.buf|
  }

  /** A byte of the unpatched image is its section's byte, or zero between the sections. */
  lemma {:induction false} FilledByte(secs: seq<Sec>, l: Layout, b: nat)
    requires WellLaid(secs, l) && b < l.size
    ensures forall i | 0 <= i < |secs| && Inside(l, secs[i], b) ::
      Filled(secs, l)[b] == secs[i].buf[b - l.offsets[secs[i].name]]
    ensures (forall i | 0 <= i < |secs| :: !Inside(l, secs[i], b)) ==> Filled(secs, l)[b] == 0
  {
    hide Splice;
    if secs != [] {
      var n := |secs| - 1;
      var front, last := secs[..n], secs[n];
      assert forall i | 0 <= i < n :: front[i] == secs[i];
      FilledByte(front, l, b);
      assert InPlace(l, last);
      SpliceByte(Filled(front, l), l.offsets[last.name], last.buf, b);
      forall i | 0 <= i < |secs| && Inside(l, secs[i], b)
        ensures Filled(secs, l)[b] == secs[i].buf[b - l.offsets[secs[i].name]]
      {
        if i < n {
          assert Disjoint(l, secs[i], last);
        }
      }
    }
  }

  lemma SpliceByte(img: seq<Byte>, at: nat, v: seq<Byte>, b: nat)
    requires at + |v| <= |img| && b < |img|
    ensures Splice(img, at, v)[b] == if at <= b < at + |v| then v[b - at] else img[b]
  {
  }

  // ----- Patches -----

  /** A patch with its target resolved: the address to refer to, or why there is none. */
  datatype Field = Field(kind: Kind, at: nat, goal: Result<int>, place: int)

  function Resolve(t: Place, l: Layout, base: int): Result<int>
  {
    match t
    case At(section, offset) => if section in l.offsets then Ok(base + l.offsets[section] + offset)
      else Err(ForeignLabel)
    case Nowhere => Err(NeverBound)
    case Elsewhere => Err(ForeignLabel)
    case Fixed(address) => Ok(address)
    case Unknown => Err(NoAddress)
  }

  function FieldOf(s: Sec, r: Reloc, l: Layout, base: int): Field
    requires InPlace(l, s)
  {
    var start := l.offsets[s.name];
    var goal := match Resolve(r.target, l, base) case Ok(a) => Ok(a + r.addend) case Err(e) => Err(e);
    Field(r.kind, start + r.offset, goal, base + start + r.offset)
  }

  function SectionFields(s: Sec, l: Layout, base: int): seq<Field>
    requires InPlace(l, s)
  {
    seq(|s.relocs|, j requires 0 <= j < |s.relocs| => FieldOf(s, s.relocs[j], l, base))
  }

  function FieldsOf(secs: seq<Sec>, l: Layout, base: int): seq<Field>
    requires forall s | s in secs :: InPlace(l, s)
  {
    if secs == [] then []
    else FieldsOf(secs[..|secs| - 1], l, base) + SectionFields(secs[|secs| - 1], l, base)
  }

  predicate Fits(f: Field, size: nat)
  {
    Sized(f.kind) && f.at + Size(f.kind) <= size
  }

  function Contents(img: seq<Byte>, f: Field): (b: seq<Byte>)
    requires Fits(f, |img|)
    ensures |b| == Size(f.kind)
  {
    img[f.at..f.at + Size(f.kind)]
  }

  function ApplyOne(img: seq<Byte>, f: Field): (r: Result<seq<Byte>>)
    requires Fits(f, |img|)
    ensures r.Ok? ==> |r.value| == |img|
  {
    match f.goal
    case Err(e) => Err(e)
    case Ok(target) =>
      match Patched(f.kind, Contents(img, f), target, f.place)
      case None => Err(DoesNotFit)
      case Some(v) => Ok(Splice(img, f.at, v))
  }

  function ApplyAll(img: seq<Byte>, fields: seq<Field>): (r: Result<seq<Byte>>)
    requires forall f | f in fields :: Fits(f, |img|)
    ensures r.Ok? ==> |r.value| == |img|
  {
    if fields == [] then Ok(img)
    else
      match ApplyAll(img, fields[..|fields| - 1])
      case Err(e) => Err(e)
      case Ok(b) => ApplyOne(b, fields[|fields| - 1])
  }

  predicate Apart(f: Field, g: Field)
  {
    f.at + Size(f.kind) <= g.at || g.at + Size(g.kind) <= f.at
  }

  predicate Touches(f: Field, b: nat)
  {
    f.at <= b < f.at + Size(f.kind)
  }

  /** No patch writes outside its own field. */
  lemma {:induction false} OutsideFields(img: seq<Byte>, fields: seq<Field>, b: nat)
    requires forall f | f in fields :: Fits(f, |img|)
    requires ApplyAll(img, fields).Ok? && b < |img|
    requires forall f | f in fields :: !Touches(f, b)
    ensures ApplyAll(img, fields).value[b] == img[b]
  {
    if fields != [] {
      var last := fields[|fields| - 1];
      assert last in fields;
      OutsideFields(img, fields[..|fields| - 1], b);
    }
  }

  lemma OutsideFieldsAll(img: seq<Byte>, fields: seq<Field>, f: Field)
    requires Fits(f, |img|)
    requires forall g | g in fields :: Fits(g, |img|) && Apart(f, g)
    requires ApplyAll(img, fields).Ok?
    ensures Contents(ApplyAll(img, fields).value, f) == Contents(img, f)
  {
    forall b: nat | Touches(f, b)
      ensures ApplyAll(img, fields).value[b] == img[b]
    {
      OutsideFields(img, fields, b);
    }
  }

  lemma ApplyOneWrites(img: seq<Byte>, f: Field)
    requires Fits(f, |img|) && ApplyOne(img, f).Ok?
    ensures f.goal.Ok?
    ensures Patched(f.kind, Contents(img, f), f.goal.value, f.place) == Some(Contents(ApplyOne(img, f).value, f))
    ensures forall b | 0 <= b < |img| && !Touches(f, b) :: ApplyOne(img, f).value[b] == img[b]
  {
    hide Patched;
    var v := Patched(f.kind, Contents(img, f), f.goal.value, f.place).value;
    assert Contents(Splice(img, f.at, v), f) == v;
  }

  lemma ApartKeeps(img: seq<Byte>, f: Field, g: Field)
    requires Fits(f, |img|) && Fits(g, |img|) && Apart(f, g) && ApplyOne(img, g).Ok?
    ensures Contents(ApplyOne(img, g).value, f) == Contents(img, f)
  {
    hide ApplyOne;
    ApplyOneWrites(img, g);
    var out := ApplyOne(img, g).value;
    forall x | 0 <= x < Size(f.kind)
      ensures Contents(out, f)[x] == Contents(img, f)[x]
    {
      assert !Touches(g, f.at + x);
    }
  }

  /** A field that no other patch overlaps ends up as its own patch of the unpatched bytes. */
  lemma {:induction false} OneField(img: seq<Byte>, fields: seq<Field>, k: nat)
    requires forall f | f in fields :: Fits(f, |img|)
    requires ApplyAll(img, fields).Ok? && k < |fields|
    requires forall j | 0 <= j < |fields| && j != k :: Apart(fields[k], fields[j])
    ensures fields[k].goal.Ok?
    ensures Patched(fields[k].kind, Contents(img, fields[k]), fields[k].goal.value, fields[k].place)
         == Some(Contents(ApplyAll(img, fields).value, fields[k]))
  {
    hide Patched, ApplyOne, Size, Sized;
    var n := |fields| - 1;
    var front, last, f := fields[..n], fields[n], fields[k];
    var b := ApplyAll(img, front).value;
    assert last in fields;
    ApplyOneWrites(b, last);
    if k < n {
      OneField(img, front, k);
      ApartKeeps(b, f, last);
    } else {
      forall g | g in front
        ensures Fits(g, |img|) && Apart(f, g)
      {
        var j :| 0 <= j < n && front[j] == g;
        assert fields[j] == g && Apart(fields[k], fields[j]);
      }
      OutsideFieldsAll(img, front, f);
    }
  }

  predicate FieldSucceeds(img: seq<Byte>, f: Field)
    requires Fits(f, |img|)
  {
    f.goal.Ok? && Patched(f.kind, Contents(img, f), f.goal.value, f.place).Some?
  }

  lemma OneSucceeds(b: seq<Byte>, img: seq<Byte>, f: Field)
    requires |b| == |img| && Fits(f, |img|)
    ensures ApplyOne(b, f).Ok? == FieldSucceeds(img, f)
  {
    hide Patched, Sized, Size;
    if f.goal.Ok? {
      SuccessIgnoresBytes(f.kind, Contents(b, f), Contents(img, f), f.goal.value, f.place);
    }
  }

  /** Patching fails exactly when some patch has no target or one that its field cannot reach. */
  lemma {:induction false} FailsExactly(img: seq<Byte>, fields: seq<Field>)
    requires forall f | f in fields :: Fits(f, |img|)
    ensures ApplyAll(img, fields).Ok? <==> forall f | f in fields :: FieldSucceeds(img, f)
  {
    hide ApplyOne, FieldSucceeds, Fits;
    if fields != [] {
      var n := |fields| - 1;
      var front, last := fields[..n], fields[n];
      FailsExactly(img, front);
      assert forall f :: f in fields <==> f in front || f == last;
      if ApplyAll(img, front).Ok? {
        OneSucceeds(ApplyAll(img, front).value, img, last);
      }
    }
  }

  // ----- The whole link -----

  datatype Image = Image(base: int, data: seq<Byte>, offsets: map<string, nat>, execSize: nat)

  function MaxAlign(secs: seq<Sec>): nat
  {
    if secs == [] then 0
    else
      var m, last := MaxAlign(secs[..|secs| - 1]), secs[|secs| - 1].align;
      if m < last then last else m
  }

  lemma {:induction false} FieldsFit(secs: seq<Sec>, l: Layout, base: int)
    requires ValidSecs(secs) && forall s | s in secs :: InPlace(l, s)
    ensures forall f | f in FieldsOf(secs, l, base) :: Fits(f, l.size)
  {
    if secs != [] {
      var n := |secs| - 1;
      FieldsFit(secs[..n], l, base);
      assert InPlace(l, secs[n]) && ValidSec(secs[n]);
      forall f | f in SectionFields(secs[n], l, base)
        ensures Fits(f, l.size)
      {
        var j :| 0 <= j < |secs[n].relocs| && f == FieldOf(secs[n], secs[n].relocs[j], l, base);
        assert ValidReloc(secs[n].relocs[j], |secs[n].buf|);
      }
    }
  }

  /** `link(asm, base, externs)` for sections whose targets are already looked up. */
  function LinkAll(secs: seq<Sec>, base: int, pageSize: nat): Result<Image>
    requires ValidSecs(secs) && secs != [] && 0 < pageSize
  {
    MaxAlignPositive(secs);
    if base % MaxAlign(secs) != 0 then Err(Misaligned)
    else
      var l := LayOut(secs, pageSize);
      LayoutPlaces(secs, pageSize);
      AllInPlace(secs, l);
      FieldsFit(secs, l, base);
      match ApplyAll(Filled(secs, l), FieldsOf(secs, l, base))
      case Err(e) => Err(e)
      case Ok(data) => Ok(Image(base, data, l.offsets, l.execSize))
  }

  lemma MaxAlignPositive(secs: seq<Sec>)
    requires ValidSecs(secs) && secs != []
    ensures 0 < MaxAlign(secs)
  {
    assert ValidSec(secs[|secs| - 1]);
  }

  lemma AllInPlace(secs: seq<Sec>, l: Layout)
    requires WellLaid(secs, l)
    ensures forall s | s in secs :: InPlace(l, s)
  {
    forall s | s in secs
      ensures InPlace(l, s)
    {
      var i :| 0 <= i < |secs| && secs[i] == s;
    }
  }

  /** The number of patches in the first i sections. */
  function Start(secs: seq<Sec>, i: nat): nat
    requires i <= |secs|
  {
    if i == 0 then 0 else Start(secs, i - 1) + |secs[i - 1].relocs|
  }

  lemma {:induction false} StartOfFront(secs: seq<Sec>, n: nat, i: nat)
    requires i <= n <= |secs|
    ensures Start(secs[..n], i) == Start(secs, i)
  {
    if i > 0 {
      StartOfFront(secs, n, i - 1);
    }
  }

  /** Patch j of section i is field Start(i) + j. */
  lemma {:induction false} FieldAt(secs: seq<Sec>, l: Layout, base: int, i: nat, j: nat)
    requires forall s | s in secs :: InPlace(l, s)
    requires i < |secs| && j < |secs[i].relocs|
    ensures Start(secs, i) + j < |FieldsOf(secs, l, base)|
    ensures FieldsOf(secs, l, base)[Start(secs, i) + j] == FieldOf(secs[i], secs[i].relocs[j], l, base)
  {
    hide FieldOf;
    var n := |secs| - 1;
    FieldCount(secs[..n], l, base);
    StartOfFront(secs, n, n);
    if i < n {
      StartOfFront(secs, n, i);
      FieldAt(secs[..n], l, base, i, j);
    }
  }

  lemma {:induction false} FieldCount(secs: seq<Sec>, l: Layout, base: int)
    requires forall s | s in secs :: InPlace(l, s)
    ensures |FieldsOf(secs, l, base)| == Start(secs, |secs|)
  {
    if secs != [] {
      FieldCount(secs[..|secs| - 1], l, base);
      StartOfFront(secs, |secs| - 1, |secs| - 1);
    }
  }

  /** Every field is some patch of some section. */
  lemma {:induction false} FieldOrigin(secs: seq<Sec>, l: Layout, base: int, k: nat) returns (i: nat, j: nat)
    requires forall s | s in secs :: InPlace(l, s)
    requires k < |FieldsOf(secs, l, base)|
    ensures i < |secs| && j < |secs[i].relocs| && k == Start(secs, i) + j
    ensures FieldsOf(secs, l, base)[k] == FieldOf(secs[i], secs[i].relocs[j], l, base)
  {
    var n := |secs| - 1;
    FieldCount(secs[..n], l, base);
    StartOfFront(secs, n, n);
    if k < |FieldsOf(secs[..n], l, base)| {
      i, j := FieldOrigin(secs[..n], l, base, k);
      StartOfFront(secs, n, i);
    } else {
      i, j := n, k - |FieldsOf(secs[..n], l, base)|;
    }
    FieldAt(secs, l, base, i, j);
  }

  predicate RelocsApart(p: Reloc, q: Reloc)
  {
    p.offset + Size(p.kind) <= q.offset || q.offset + Size(q.kind) <= p.offset
  }

  /** Patches of different sections never overlap; those of one section do as their offsets say. */
  lemma FieldsApart(secs: seq<Sec>, l: Layout, base: int, i: nat, j: nat, i': nat, j': nat)
    requires ValidSecs(secs) && WellLaid(secs, l)
    requires i < |secs| && j < |secs[i].relocs| && i' < |secs| && j' < |secs[i'].relocs|
    requires i == i' ==> RelocsApart(secs[i].relocs[j], secs[i].relocs[j'])
    ensures InPlace(l, secs[i]) && InPlace(l, secs[i'])
    ensures Apart(FieldOf(secs[i], secs[i].relocs[j], l, base), FieldOf(secs[i'], secs[i'].relocs[j'], l, base))
  {
    hide Size, Sized;
    assert ValidSec(secs[i]) && ValidSec(secs[i']);
    assert ValidReloc(secs[i].relocs[j], |secs[i].buf|) && ValidReloc(secs[i'].relocs[j'], |secs[i'].buf|);
    if i < i' {
      assert Disjoint(l, secs[i], secs[i']);
    } else if i' < i {
      assert Disjoint(l, secs[i'], secs[i]);
    }
  }

  ghost predicate Alone(s: Sec, j: nat)
    requires j < |s.relocs|
  {
    forall j' | 0 <= j' < |s.relocs| && j' != j :: RelocsApart(s.relocs[j], s.relocs[j'])
  }

  /** The emitted bytes that a patch is over. */
  function TemplateOf(s: Sec, r: Reloc): (field: seq<Byte>)
    requires ValidReloc(r, |s.buf|)
    ensures |field| == Size(r.kind)
  {
    s.buf[r.offset..r.offset + Size(r.kind)]
  }

  /** The linked field refers to the goal plus the addend, exactly if that is no odd jump. */
  predicate FieldLinked(img: Image, s: Sec, r: Reloc, goal: Result<int>)
    requires ValidReloc(r, |s.buf|)
  {
    && s.name in img.offsets && goal.Ok?
    && var at := img.offsets[s.name] + r.offset;
    && at + Size(r.kind) <= |img.data|
    && (Refers(r.kind, img.data[at..at + Size(r.kind)], img.base + at, goal.value + r.addend)
        <==> !OddJump(r.kind, TemplateOf(s, r), goal.value + r.addend))
  }

  /**
    After a successful link, a patch whose field no other patch of its section overlaps refers to
    its target plus addend, provided the emitted bytes left the instruction's field zero; but a
    riscv64 `call` or `tail` does so only if that is even.
   */
  lemma LinkedField(secs: seq<Sec>, base: int, pageSize: nat, i: nat, j: nat)
    requires ValidSecs(secs) && secs != [] && 0 < pageSize
    requires LinkAll(secs, base, pageSize).Ok?
    requires i < |secs| && j < |secs[i].relocs| && Alone(secs[i], j)
    requires ValidReloc(secs[i].relocs[j], |secs[i].buf|)
    requires Template(secs[i].relocs[j].kind, TemplateOf(secs[i], secs[i].relocs[j]))
    ensures FieldLinked(LinkAll(secs, base, pageSize).value, secs[i], secs[i].relocs[j],
                        Resolve(secs[i].relocs[j].target, LayOut(secs, pageSize), base))
  {
    hide Patched, Size, Sized, Template, Refers, OddJump, LayOut, Filled, FieldsOf, ApplyAll, Alone;
    var l := LayOut(secs, pageSize);
    LayoutPlaces(secs, pageSize);
    AllInPlace(secs, l);
    FieldsFit(secs, l, base);
    var f := FieldOf(secs[i], secs[i].relocs[j], l, base);
    FieldPatched(secs, l, base, i, j);
    SectionBytes(secs, l, i, secs[i].relocs[j]);
    Lands(f.kind, Contents(Filled(secs, l), f), f.goal.value, f.place);
  }

  lemma FieldPatched(secs: seq<Sec>, l: Layout, base: int, i: nat, j: nat)
    requires ValidSecs(secs) && WellLaid(secs, l) && (forall s | s in secs :: InPlace(l, s))
    requires i < |secs| && j < |secs[i].relocs| && Alone(secs[i], j)
    requires forall f | f in FieldsOf(secs, l, base) :: Fits(f, l.size)
    requires ApplyAll(Filled(secs, l), FieldsOf(secs, l, base)).Ok?
    ensures var f := FieldOf(secs[i], secs[i].relocs[j], l, base);
      Fits(f, l.size) && f.goal.Ok?
      && Patched(f.kind, Contents(Filled(secs, l), f), f.goal.value, f.place)
         == Some(Contents(ApplyAll(Filled(secs, l), FieldsOf(secs, l, base)).value, f))
  {
    hide Patched, Size, Sized, Filled, FieldsOf, ApplyAll, FieldOf;
    var fields := FieldsOf(secs, l, base);
    FieldAt(secs, l, base, i, j);
    var k := Start(secs, i) + j;
    forall k' | 0 <= k' < |fields| && k' != k
      ensures Apart(fields[k], fields[k'])
    {
      var i', j' := FieldOrigin(secs, l, base, k');
      FieldsApart(secs, l, base, i, j, i', j');
    }
    assert fields[k] in fields;
    OneField(Filled(secs, l), fields, k);
  }

  /** The unpatched image holds the section's bytes where a patch will go. */
  lemma SectionBytes(secs: seq<Sec>, l: Layout, i: nat, r: Reloc)
    requires WellLaid(secs, l) && (forall s | s in secs :: InPlace(l, s))
    requires i < |secs| && ValidReloc(r, |secs[i].buf|)
    ensures var at := l.offsets[secs[i].name] + r.offset;
      at + Size(r.kind) <= l.size
      && Filled(secs, l)[at..at + Size(r.kind)] == secs[i].buf[r.offset..r.offset + Size(r.kind)]
  {
    hide Size, Sized, Filled;
    var start := l.offsets[secs[i].name];
    assert InPlace(l, secs[i]);
    forall b | start <= b < start + |secs[i].buf|
      ensures Filled(secs, l)[b] == secs[i].buf[b - start]
    {
      FilledByte(secs, l, b);
      assert Inside(l, secs[i], b);
    }
  }

  /** Patch r of section s writes byte b of the image. */
  predicate Writes(l: Layout, s: Sec, r: Reloc, b: nat)
  {
    s.name in l.offsets && l.offsets[s.name] + r.offset <= b < l.offsets[s.name] + r.offset + Size(r.kind)
  }

  /** Every byte that no patch writes is its section's byte, or zero between sections. */
  lemma LinkedByte(secs: seq<Sec>, base: int, pageSize: nat, b: nat)
    requires ValidSecs(secs) && secs != [] && 0 < pageSize
    requires LinkAll(secs, base, pageSize).Ok?
    requires b < LayOut(secs, pageSize).size
    requires forall i, j | 0 <= i < |secs| && 0 <= j < |secs[i].relocs| ::
               !Writes(LayOut(secs, pageSize), secs[i], secs[i].relocs[j], b)
    ensures WellLaid(secs, LayOut(secs, pageSize))
    ensures b < |LinkAll(secs, base, pageSize).value.data|
    ensures forall i | 0 <= i < |secs| && Inside(LayOut(secs, pageSize), secs[i], b) ::
      LinkAll(secs, base, pageSize).value.data[b] == secs[i].buf[b - LayOut(secs, pageSize).offsets[secs[i].name]]
    ensures (forall i | 0 <= i < |secs| :: !Inside(LayOut(secs, pageSize), secs[i], b))
        ==> LinkAll(secs, base, pageSize).value.data[b] == 0
  {
    hide LayOut, Filled, Size, Sized, FieldsOf, ApplyAll, Writes, Touches, Fits;
    var l := LayOut(secs, pageSize);
    LayoutPlaces(secs, pageSize);
    AllInPlace(secs, l);
    FieldsFit(secs, l, base);
    NotTouched(secs, l, base, b);
    OutsideFields(Filled(secs, l), FieldsOf(secs, l, base), b);
    FilledByte(secs, l, b);
  }

  /** A byte of a section that no patch of its own section writes is linked as it is. */
  lemma SpanByte(secs: seq<Sec>, base: int, pageSize: nat, i: nat, b: nat)
    requires ValidSecs(secs) && secs != [] && 0 < pageSize
    requires LinkAll(secs, base, pageSize).Ok?
    requires i < |secs| && b < |secs[i].buf|
    requires forall j | 0 <= j < |secs[i].relocs| ::
               b < secs[i].relocs[j].offset || secs[i].relocs[j].offset + Size(secs[i].relocs[j].kind) <= b
    ensures var l := LayOut(secs, pageSize);
      var img := LinkAll(secs, base, pageSize).value;
      && secs[i].name in l.offsets && l.offsets[secs[i].name] + |secs[i].buf| <= |img.data|
      && img.data[l.offsets[secs[i].name] + b] == secs[i].buf[b]
  {
    hide LayOut, Size, Sized, LinkAll, FieldsOf, ApplyAll;
    var l := LayOut(secs, pageSize);
    LayoutPlaces(secs, pageSize);
    AllInPlace(secs, l);
    assert InPlace(l, secs[i]);
    var at := l.offsets[secs[i].name] + b;
    assert Inside(l, secs[i], at);
    forall i', j' | 0 <= i' < |secs| && 0 <= j' < |secs[i'].relocs|
      ensures !Writes(l, secs[i'], secs[i'].relocs[j'], at)
    {
      if Writes(l, secs[i'], secs[i'].relocs[j'], at) && i' != i {
        WritesInside(secs, l, i', j', at);
        InsideOne(secs, l, i, i', at);
      }
    }
    LinkedByte(secs, base, pageSize, at);
    LinkedSize(secs, base, pageSize);
  }

  lemma WritesInside(secs: seq<Sec>, l: Layout, i: nat, j: nat, b: nat)
    requires ValidSecs(secs) && WellLaid(secs, l)
    requires i < |secs| && j < |secs[i].relocs| && Writes(l, secs[i], secs[i].relocs[j], b)
    ensures Inside(l, secs[i], b)
  {
    hide Size, Sized;
    assert ValidSec(secs[i]) && ValidReloc(secs[i].relocs[j], |secs[i].buf|);
  }

  /** Sections do not share bytes of the image. */
  lemma InsideOne(secs: seq<Sec>, l: Layout, i: nat, i': nat, b: nat)
    requires WellLaid(secs, l) && i < |secs| && i' < |secs| && i != i'
    requires Inside(l, secs[i], b)
    ensures !Inside(l, secs[i'], b)
  {
    if i < i' {
      assert Disjoint(l, secs[i], secs[i']);
    } else {
      assert Disjoint(l, secs[i'], secs[i]);
    }
  }

  lemma LinkedSize(secs: seq<Sec>, base: int, pageSize: nat)
    requires ValidSecs(secs) && secs != [] && 0 < pageSize
    requires LinkAll(secs, base, pageSize).Ok?
    ensures |LinkAll(secs, base, pageSize).value.data| == LayOut(secs, pageSize).size
    ensures LinkAll(secs, base, pageSize).value.offsets == LayOut(secs, pageSize).offsets
  {
    hide LayOut, Filled, FieldsOf, ApplyAll, Fits;
    var l := LayOut(secs, pageSize);
    LayoutPlaces(secs, pageSize);
    AllInPlace(secs, l);
    FieldsFit(secs, l, base);
  }

  lemma NotTouched(secs: seq<Sec>, l: Layout, base: int, b: nat)
    requires forall s | s in secs :: InPlace(l, s)
    requires forall i, j | 0 <= i < |secs| && 0 <= j < |secs[i].relocs| :: !Writes(l, secs[i], secs[i].relocs[j], b)
    ensures forall f | f in FieldsOf(secs, l, base) :: !Touches(f, b)
  {
    hide Size, Sized, FieldsOf;
    forall f | f in FieldsOf(secs, l, base)
      ensures !Touches(f, b)
    {
      var k :| 0 <= k < |FieldsOf(secs, l, base)| && FieldsOf(secs, l, base)[k] == f;
      var i, j := FieldOrigin(secs, l, base, k);
      assert InPlace(l, secs[i]);
      assert !Writes(l, secs[i], secs[i].relocs[j], b);
    }
  }

  predicate PatchSucceeds(s: Sec, r: Reloc, l: Layout, base: int)
    requires InPlace(l, s)
  {
    && ValidReloc(r, |s.buf|)
    && Resolve(r.target, l, base).Ok?
    && Patched(r.kind, s.buf[r.offset..r.offset + Size(r.kind)], Resolve(r.target, l, base).value + r.addend,
               base + l.offsets[s.name] + r.offset).Some?
  }

  lemma SuccessMatches(secs: seq<Sec>, l: Layout, base: int, i: nat, j: nat)
    requires ValidSecs(secs) && WellLaid(secs, l) && (forall s | s in secs :: InPlace(l, s))
    requires i < |secs| && j < |secs[i].relocs|
    ensures var f := FieldOf(secs[i], secs[i].relocs[j], l, base);
      Fits(f, l.size) && FieldSucceeds(Filled(secs, l), f) == PatchSucceeds(secs[i], secs[i].relocs[j], l, base)
  {
    hide Filled, Size, Sized, Patched;
    assert ValidSec(secs[i]) && ValidReloc(secs[i].relocs[j], |secs[i].buf|);
    SectionBytes(secs, l, i, secs[i].relocs[j]);
  }

  ghost predicate AllSucceed(secs: seq<Sec>, l: Layout, base: int)
    requires forall i | 0 <= i < |secs| :: InPlace(l, secs[i])
  {
    forall i, j | 0 <= i < |secs| && 0 <= j < |secs[i].relocs| :: PatchSucceeds(secs[i], secs[i].relocs[j], l, base)
  }

  /** Linking fails exactly when the base is misaligned or some patch has no reachable target. */
  lemma LinkFailsExactly(secs: seq<Sec>, base: int, pageSize: nat)
    requires ValidSecs(secs) && secs != [] && 0 < pageSize
    ensures 0 < MaxAlign(secs) && WellLaid(secs, LayOut(secs, pageSize))
    ensures LinkAll(secs, base, pageSize).Ok?
       <==> base % MaxAlign(secs) == 0 && AllSucceed(secs, LayOut(secs, pageSize), base)
  {
    hide LayOut, Filled, FieldSucceeds, PatchSucceeds, ApplyAll, FieldsOf, FieldOf;
    var l := LayOut(secs, pageSize);
    MaxAlignPositive(secs);
    LayoutPlaces(secs, pageSize);
    AllInPlace(secs, l);
    FieldsFit(secs, l, base);
    var img, fields := Filled(secs, l), FieldsOf(secs, l, base);
    FailsExactly(img, fields);
    if AllSucceed(secs, l, base) {
      forall f | f in fields
        ensures FieldSucceeds(img, f)
      {
        var k :| 0 <= k < |fields| && fields[k] == f;
        var i, j := FieldOrigin(secs, l, base, k);
        SuccessMatches(secs, l, base, i, j);
      }
    } else {
      var i, j :| 0 <= i < |secs| && 0 <= j < |secs[i].relocs| && !PatchSucceeds(secs[i], secs[i].relocs[j], l, base);
      SuccessMatches(secs, l, base, i, j);
      FieldAt(secs, l, base, i, j);
      assert FieldOf(secs[i], secs[i].relocs[j], l, base) in fields;
    }
  }

  // ----- Position independence -----

  /** Relative to the own place, to a label, and by whole pages only if the bases differ by pages. */
  predicate Independent(r: Reloc, delta: int)
  {
    !r.kind.Abs? && (r.target.At? || r.target.Nowhere? || r.target.Elsewhere?)
      && (Paged(r.kind) ==> delta % 0x1000 == 0)
  }

  predicate Shifted(f: Field, g: Field, delta: int)
  {
    && f.kind == g.kind && f.at == g.at && g.place == f.place + delta
    && g.goal == (match f.goal case Ok(a) => Ok(a + delta) case Err(e) => Err(e))
    && !f.kind.Abs? && (Paged(f.kind) ==> delta % 0x1000 == 0)
  }

  lemma {:induction false} ShiftedFields(secs: seq<Sec>, l: Layout, base: int, delta: int)
    requires forall s | s in secs :: InPlace(l, s)
    requires forall s, r | s in secs && r in s.relocs :: Independent(r, delta)
    ensures |FieldsOf(secs, l, base)| == |FieldsOf(secs, l, base + delta)|
    ensures forall k | 0 <= k < |FieldsOf(secs, l, base)| ::
              Shifted(FieldsOf(secs, l, base)[k], FieldsOf(secs, l, base + delta)[k], delta)
  {
    if secs != [] {
      var n := |secs| - 1;
      ShiftedFields(secs[..n], l, base, delta);
      forall j | 0 <= j < |secs[n].relocs|
        ensures Shifted(FieldOf(secs[n], secs[n].relocs[j], l, base),
                        FieldOf(secs[n], secs[n].relocs[j], l, base + delta), delta)
      {
        assert secs[n].relocs[j] in secs[n].relocs && Independent(secs[n].relocs[j], delta);
      }
    }
  }

  lemma ShiftedOne(img: seq<Byte>, f: Field, g: Field, delta: int)
    requires Shifted(f, g, delta) && Fits(f, |img|) && Fits(g, |img|)
    ensures ApplyOne(img, f) == ApplyOne(img, g)
  {
    hide Patched, Sized, Size;
    if f.goal.Ok? {
      PatchedIsRelative(f.kind, Contents(img, f), f.goal.value, f.place, delta);
    }
  }

  lemma {:induction false} ShiftedApply(img: seq<Byte>, fs: seq<Field>, gs: seq<Field>, delta: int)
    requires |fs| == |gs| && forall k | 0 <= k < |fs| :: Shifted(fs[k], gs[k], delta)
    requires (forall f | f in fs :: Fits(f, |img|)) && (forall g | g in gs :: Fits(g, |img|))
    ensures ApplyAll(img, fs) == ApplyAll(img, gs)
  {
    hide ApplyOne, Shifted, Sized, Size;
    if fs != [] {
      var n := |fs| - 1;
      ShiftedApply(img, fs[..n], gs[..n], delta);
      var r := ApplyAll(img, fs[..n]);
      if r.Ok? {
        ShiftedOne(r.value, fs[n], gs[n], delta);
      }
    }
  }

  /** Code whose every patch is relative to a label links to the same bytes at any two valid bases. */
  lemma PositionIndependent(secs: seq<Sec>, base: int, other: int, pageSize: nat)
    requires ValidSecs(secs) && secs != [] && 0 < pageSize
    requires forall s, r | s in secs && r in s.relocs :: Independent(r, other - base)
    requires 0 < MaxAlign(secs) && base % MaxAlign(secs) == 0 && other % MaxAlign(secs) == 0
    ensures LinkAll(secs, base, pageSize).Ok? == LinkAll(secs, other, pageSize).Ok?
    ensures LinkAll(secs, base, pageSize).Ok?
        ==> LinkAll(secs, base, pageSize).value.data == LinkAll(secs, other, pageSize).value.data
  {
    hide LayOut, Filled, FieldsOf, ApplyAll;
    var l := LayOut(secs, pageSize);
    LayoutPlaces(secs, pageSize);
    AllInPlace(secs, l);
    FieldsFit(secs, l, base);
    FieldsFit(secs, l, other);
    assert base + (other - base) == other;
    ShiftedFields(secs, l, base, other - base);
    ShiftedApply(Filled(secs, l), FieldsOf(secs, l, base), FieldsOf(secs, l, other), other - base);
  }

  // ----- Alignment -----

  /** `_check_pow2` accepts n. */
  predicate PowerOfTwo(n: nat)
  {
    n == 1 || (0 < n && n % 2 == 0 && PowerOfTwo(n / 2))
  }

  lemma {:induction false} PowersDivide(m: nat, n: nat)
    requires PowerOfTwo(m) && PowerOfTwo(n) && m <= n
    ensures 0 < m && n % m == 0
  {
    if m == 1 {
    } else {
      PowersDivide(m / 2, n / 2);
      var q := (n / 2) / (m / 2);
      assert n / 2 == q * (m / 2);
      assert n == q * m by { assert m == 2 * (m / 2) && n == 2 * (n / 2); }
      Bits.DivModUnique(n, m, q, 0);
    }
  }

  lemma MultipleOfMultiple(x: int, n: nat, m: nat)
    requires 0 < m && 0 < n && n % m == 0 && x % n == 0
    ensures x % m == 0
  {
    var a, b := x / n, n / m;
    assert x == a * (b * m);
    assert a * (b * m) == (a * b) * m;
    Bits.DivModUnique(x, m, a * b, 0);
  }

  lemma SumOfMultiples(x: int, y: int, m: nat)
    requires 0 < m && x % m == 0 && y % m == 0
    ensures (x + y) % m == 0
  {
    var a, b := x / m, y / m;
    assert x + y == (a + b) * m;
    Bits.DivModUnique(x + y, m, a + b, 0);
  }

  lemma {:induction false} MaxAlignOf(secs: seq<Sec>, i: nat)
    requires i < |secs| && forall s | s in secs :: PowerOfTwo(s.align)
    ensures PowerOfTwo(MaxAlign(secs)) && secs[i].align <= MaxAlign(secs)
    ensures exists k :: 0 <= k < |secs| && secs[k].align == MaxAlign(secs)
  {
    var n := |secs| - 1;
    assert PowerOfTwo(secs[n].align);
    if n > 0 {
      MaxAlignOf(secs[..n], if i < n then i else 0);
      var k :| 0 <= k < n && secs[..n][k].align == MaxAlign(secs[..n]);
      assert secs[k].align == MaxAlign(secs[..n]);
    }
  }

  /**
    An offset that is a multiple of n in a section aligned to at least n gets an absolute address
    that is a multiple of n, in every successful link: labels bound after `align(n)`, extern slots.
   */
  lemma LinkedAlignment(secs: seq<Sec>, base: int, pageSize: nat, i: nat, offset: nat, n: nat)
    requires ValidSecs(secs) && secs != [] && 0 < pageSize
    requires forall s | s in secs :: PowerOfTwo(s.align)
    requires LinkAll(secs, base, pageSize).Ok?
    requires i < |secs| && PowerOfTwo(n) && n <= secs[i].align && offset % n == 0
    ensures secs[i].name in LinkAll(secs, base, pageSize).value.offsets
    ensures (base + LinkAll(secs, base, pageSize).value.offsets[secs[i].name] + offset) % n == 0
  {
    hide LayOut, Filled, FieldsOf, ApplyAll, PowerOfTwo;
    var l := LayOut(secs, pageSize);
    LayoutPlaces(secs, pageSize);
    assert InPlace(l, secs[i]);
    MaxAlignOf(secs, i);
    MaxAlignPositive(secs);
    PowersDivide(n, MaxAlign(secs));
    PowersDivide(n, secs[i].align);
    MultipleOfMultiple(base, MaxAlign(secs), n);
    MultipleOfMultiple(l.offsets[secs[i].name], secs[i].align, n);
    SumOfMultiples(base, l.offsets[secs[i].name], n);
    SumOfMultiples(base + l.offsets[secs[i].name], offset, n);
  }
}
