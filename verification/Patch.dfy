/**
  Patch kinds (jita/core/patch.py and the `patch.py` of each architecture): how a resolved address
  is written into a field, and what the written field means to the processor.
 */
module Patch {
  import opened Bits
  import opened Bytes
  import opened Relocation
  import Fields
  import Riscv64Patch
  import Loong64Patch
  import Aarch64Patch
  import opened Wrappers

  /** `Slot` stands for a SlotKind, which `add_patch` replaces by its field kind. */
  datatype Kind =
    | Abs(size: nat)
    | Rel(size: nat)
    | Riscv64(rv: Riscv64Patch.Kind)
    | Loong64(la: Loong64Patch.Kind)
    | Aarch64(a64: Aarch64Patch.Kind)
    | Slot(field: Kind)

  predicate Sized(k: Kind)
  {
    match k
    case Abs(size) => 0 < size
    case Rel(size) => 0 < size
    case Slot(field) => Sized(field)
    case _ => true
  }

  function Size(k: Kind): nat
  {
    match k
    case Abs(size) => size
    case Rel(size) => size
    case Riscv64(rv) => Riscv64Patch.Size(rv)
    case Loong64(la) => Loong64Patch.Size(la)
    case Aarch64(_) => Aarch64Patch.SIZE
    case Slot(field) => Size(field)
  }

  lemma {:induction false} SizePositive(k: Kind)
    requires Sized(k)
    ensures 0 < Size(k)
  {
    if k.Slot? {
      SizePositive(k.field);
    }
  }

  /** The sign bit of a field of `size` bytes. */
  function Half(size: nat): (h: int)
    requires 0 < size
    ensures 0 < h
  {
    Pow2(8 * size - 1)
  }

  function WordEdits(k: Kind, field: seq<Byte>, target: int, place: int): (p: Option<seq<Edit>>)
    requires k.Riscv64? || k.Loong64? || k.Aarch64?
    requires |field| == Size(k)
    ensures p.Some? ==> 4 * |p.value| == |field|
  {
    match k
    case Riscv64(rv) => Riscv64Patch.Plan(rv, field, target, place)
    case Loong64(la) => Loong64Patch.Plan(la, target, place)
    case Aarch64(a64) => Aarch64Patch.Plan(a64, target, place)
  }

  /** What `apply` turns the bytes of a field into, or None where it raises LinkError. */
  function Patched(k: Kind, field: seq<Byte>, target: int, place: int): (r: Option<seq<Byte>>)
    requires Sized(k) && |field| == Size(k)
    ensures r.Some? ==> |r.value| == Size(k)
  {
    match k
    case Abs(size) =>
      if !(-Half(size) <= target < 2 * Half(size)) then None else Some(ToLE(target % (2 * Half(size)), size))
    case Rel(size) =>
      var value := target - (place + size);
      if !(-Half(size) <= value < Half(size)) then None else Some(ToLE(value % (2 * Half(size)), size))
    case Slot(_) => None
    case _ =>
      match WordEdits(k, field, target, place)
      case None => None
      case Some(edits) => Some(OrEdits(field, edits))
  }

  /** The field refers to `target`: the reading of the manual of each architecture. */
  predicate Refers(k: Kind, field: seq<Byte>, place: int, target: int)
    requires Sized(k) && |field| == Size(k)
  {
    match k
    // the address itself, read as an unsigned or as a signed number
    case Abs(size) => target == FromLE(field) || target == Wrap(FromLE(field), Half(size))
    // a signed displacement from the end of the field
    case Rel(size) => target == place + size + Wrap(FromLE(field), Half(size))
    case Riscv64(rv) => Riscv64Patch.Address(rv, field, place) == target
    case Loong64(la) => Loong64Patch.Address(la, field, place) == target
    case Aarch64(a64) => Aarch64Patch.Address(a64, field, place) == Aarch64Patch.Wanted(a64, target)
    case Slot(_) => false
  }

  /** The field refers to the address `target`: the processor's sums wrap around. */
  predicate Meets(k: Kind, field: seq<Byte>, place: int, target: int)
    requires Sized(k) && |field| == Size(k)
  {
    match k
    case Abs(size) => SameAddress(FromLE(field), target) || SameAddress(Wrap(FromLE(field), Half(size)), target)
    case Rel(size) => SameAddress(place + size + Wrap(FromLE(field), Half(size)), target)
    case Riscv64(rv) => SameAddress(Riscv64Patch.Address(rv, field, place), target)
    case Loong64(la) => SameAddress(Loong64Patch.Address(la, field, place), target)
    case Aarch64(a64) => SameAddress(Aarch64Patch.Address(a64, field, place), Aarch64Patch.Wanted(a64, target))
    case Slot(_) => false
  }

  /** The number of the address that is nearest to where the field counts from. */
  function Near(k: Kind, target: int, place: int): (near: int)
    ensures SameAddress(near, target)
  {
    match k
    case Abs(_) => Nearest(target, 0)
    case Rel(size) => Nearest(target, place + size)
    case _ => Nearest(target, place)
  }

  /** In the lower half of the address space a number is its own nearest. */
  lemma LowerHalf(k: Kind, target: int, place: int)
    requires 0 <= target < 0x8000_0000_0000_0000 && 0 <= place && place + Size(k) <= 0x8000_0000_0000_0000
    ensures Near(k, target, place) == target
  {
  }

  /** Plain fields are overwritten; instruction fields must be zero in the template. */
  predicate Template(k: Kind, field: seq<Byte>)
    requires |field| == Size(k)
  {
    match k
    case Riscv64(rv) => FieldClear(field, Riscv64Patch.Shape(rv, field))
    case Loong64(la) => FieldClear(field, Loong64Patch.Shape(la))
    case Aarch64(a64) => FieldClear(field, Aarch64Patch.Shape(a64))
    case _ => true
  }

  lemma ZeroWord(n: nat, i: nat)
    requires 4 * i + 4 <= n
    ensures Word(Zeros(n), i) == 0
  {
    assert Zeros(n)[4 * i..4 * i + 4] == Zeros(4);
    FromZeros(4);
  }

  lemma ZeroClear(shape: seq<Fields.Format>)
    ensures FieldClear(Zeros(4 * |shape|), shape)
  {
    hide Fields.Slice, FromLE, Word;
    forall i | 0 <= i < |shape|
      ensures Fields.Clear(shape[i], Word(Zeros(4 * |shape|), i))
    {
      ZeroWord(4 * |shape|, i);
      forall s | s in shape[i]
        ensures Fields.Slice(0, s.to, s.len) == 0
      {
        Fields.SliceOfZero(s.to, s.len);
      }
    }
  }

  /** A field of zeros is a template for every kind. */
  lemma ZeroTemplate(k: Kind)
    requires Sized(k) && !k.Slot?
    ensures Template(k, Zeros(Size(k)))
  {
    hide FieldClear;
    match k
    case Riscv64(rv) => ZeroClear(Riscv64Patch.Shape(rv, Zeros(Size(k))));
    case Loong64(la) => ZeroClear(Loong64Patch.Shape(la));
    case Aarch64(a64) => ZeroClear(Aarch64Patch.Shape(a64));
    case _ =>
  }

  lemma HalfDoubles(size: nat)
    requires 0 < size
    ensures 2 * Half(size) == Pow2(8 * size)
  {
  }

  lemma BytesOf(v: int, size: nat)
    requires 0 < size
    ensures FromLE(ToLE(v % (2 * Half(size)), size)) == v % (2 * Half(size))
    ensures -Half(size) <= v < Half(size) ==> Wrap(v % (2 * Half(size)), Half(size)) == v
    ensures 0 <= v < 2 * Half(size) ==> v % (2 * Half(size)) == v
  {
    var h := Half(size);
    HalfDoubles(size);
    FromToLE(v % (2 * h), size);
    if -h <= v < h {
      Fields.WrapLow(v, h);
    }
    if 0 <= v < 2 * h {
      DivModUnique(v, 2 * h, 0, v);
    }
  }

  /** A riscv64 `call` or `tail` to an odd address: accepted, but jalr clears bit 0. */
  predicate OddJump(k: Kind, field: seq<Byte>, target: int)
    requires |field| == Size(k)
  {
    k.Riscv64? && Riscv64Patch.OddJump(k.rv, field, target)
  }

  /** A riscv64 `call` or `tail` from an odd place, one byte out of the reach of the others. */
  predicate EdgeJump(k: Kind, field: seq<Byte>, target: int, place: int)
    requires |field| == Size(k)
  {
    k.Riscv64? && Riscv64Patch.EdgeJump(k.rv, field, target, place)
  }

  /** A patch that succeeds makes its field refer to the target, exactly if it is no odd jump. */
  lemma Lands(k: Kind, field: seq<Byte>, target: int, place: int)
    requires Sized(k) && |field| == Size(k) && Template(k, field)
    requires Patched(k, field, target, place).Some?
    ensures Refers(k, Patched(k, field, target, place).value, place, target) <==> !OddJump(k, field, target)
  {
    hide Wrap, Half, ToLE, FromLE, OrEdits, Riscv64Patch.OddJump;
    match k
    case Abs(size) => BytesOf(target, size);
    case Rel(size) => BytesOf(target - (place + size), size);
    case Riscv64(rv) => Riscv64Patch.Lands(rv, field, target, place);
    case Loong64(la) => Loong64Patch.Lands(la, field, target, place);
    case Aarch64(a64) => Aarch64Patch.Lands(a64, field, target, place);
  }

  /** If the nearest number of an address is refused, no contents of the field reach that address. */
  lemma Misses(k: Kind, field: seq<Byte>, target: int, place: int, any: seq<Byte>)
    requires Sized(k) && |field| == |any| == Size(k)
    requires Patched(k, field, Near(k, target, place), place).None?
    ensures Meets(k, any, place, target) ==> EdgeJump(k, any, Near(k, target, place), place)
  {
    hide Wrap, ToLE, OrEdits, Half, Nearest, SameAddress;
    match k
    case Abs(size) => MissesAbs(size, target, any);
    case Rel(size) => MissesRel(size, target, place, any);
    case Riscv64(rv) => Riscv64Patch.Misses(rv, field, target, place, any);
    case Loong64(la) => Loong64Patch.Misses(la, target, place, any);
    case Aarch64(a64) => Aarch64Patch.Misses(a64, target, place, any);
    case Slot(_) =>
  }

  /** Only a field of less than eight bytes can be too small for a nearest number. */
  lemma HalfBound(size: nat)
    requires 0 < size
    ensures size < 8 ==> Half(size) <= 0x80_0000_0000_0000
    ensures size >= 8 ==> Half(size) >= 0x8000_0000_0000_0000
  {
    hide Pow2;
    PowTable();
    PowAdd(31, 24);
    if size < 8 {
      PowMonotone(8 * size - 1, 55);
    } else {
      PowMonotone(63, 8 * size - 1);
    }
  }

  lemma MissesAbs(size: nat, target: int, any: seq<Byte>)
    requires 0 < size == |any|
    requires !(-Half(size) <= Nearest(target, 0) < 2 * Half(size))
    ensures !SameAddress(FromLE(any), target) && !SameAddress(Wrap(FromLE(any), Half(size)), target)
  {
    hide Wrap, Half, Nearest, SameAddress, FromLE;
    HalfBound(size);
    HalfDoubles(size);
    FromLEBound(any);
    forall x | -Half(size) <= x < 2 * Half(size)
      ensures !SameAddress(x, target)
    {
      if SameAddress(x, target) {
        ReachesNearest(x, target, 0);
      }
    }
  }

  lemma MissesRel(size: nat, target: int, place: int, any: seq<Byte>)
    requires 0 < size == |any|
    requires !(-Half(size) <= Nearest(target, place + size) - (place + size) < Half(size))
    ensures !SameAddress(place + size + Wrap(FromLE(any), Half(size)), target)
  {
    hide Wrap, Half, Nearest, SameAddress, FromLE;
    HalfBound(size);
    var address := place + size + Wrap(FromLE(any), Half(size));
    if SameAddress(address, target) {
      ReachesNearest(address, target, place + size);
    }
  }

  /** The two differ at most in the bits that a patch of this kind writes. */
  ghost predicate SameOutside(k: Kind, any: seq<Byte>, field: seq<Byte>)
    requires |any| == |field| == Size(k)
  {
    match k
    case Riscv64(rv) => Relocation.SameOutside(any, field, Riscv64Patch.Shape(rv, field))
    case Loong64(la) => Relocation.SameOutside(any, field, Loong64Patch.Shape(la))
    case Aarch64(a64) => Relocation.SameOutside(any, field, Aarch64Patch.Shape(a64))
    case _ => true
  }

  lemma PatchStaysInside(k: Kind, field: seq<Byte>, target: int, place: int)
    requires Sized(k) && |field| == Size(k) && Patched(k, field, target, place).Some?
    ensures SameOutside(k, Patched(k, field, target, place).value, field)
  {
    hide ToLE, OrEdits, Half, FitsWord, Relocation.SameOutside;
    match k
    case Riscv64(rv) =>
      EditsStayInside(field, Riscv64Patch.Plan(rv, field, target, place).value, Riscv64Patch.Shape(rv, field));
    case Loong64(la) => EditsStayInside(field, Loong64Patch.Plan(la, target, place).value, Loong64Patch.Shape(la));
    case Aarch64(a64) => EditsStayInside(field, Aarch64Patch.Plan(a64, target, place).value, Aarch64Patch.Shape(a64));
    case _ =>
  }

  /** Contents that leave the rest of the instruction as it is and refer to the target. */
  ghost predicate Reaches(k: Kind, field: seq<Byte>, any: seq<Byte>, place: int, target: int)
    requires Sized(k) && |field| == Size(k)
  {
    |any| == Size(k) && SameOutside(k, any, field) && Meets(k, any, place, target)
  }

  /** Contents that refer to a number of the address reach it. */
  lemma RefersMeets(k: Kind, any: seq<Byte>, place: int, near: int, target: int)
    requires Sized(k) && |any| == Size(k) && SameAddress(near, target) && Refers(k, any, place, near)
    ensures Meets(k, any, place, target)
  {
    hide Wrap, Half, FromLE, Riscv64Patch.Address, Loong64Patch.Address, Aarch64Patch.Address, SameAddress;
    if k.Aarch64? {
      Aarch64Patch.SamePage(k.a64, target, near);
      hide Aarch64Patch.Wanted;
      SameTrans(Aarch64Patch.Wanted(k.a64, target), Aarch64Patch.Wanted(k.a64, near),
                Aarch64Patch.Wanted(k.a64, near)) by { SameSelf(Aarch64Patch.Wanted(k.a64, near)); }
    }
  }

  lemma SameSelf(a: int)
    ensures SameAddress(a, a)
  {
  }

  /** `apply` accepts the number and its field refers to it; or it is the number at the edge, which it should accept. */
  predicate Reachable(k: Kind, field: seq<Byte>, target: int, place: int)
    requires Sized(k) && |field| == Size(k)
  {
    (Patched(k, field, target, place).Some? && !OddJump(k, field, target)) || EdgeJump(k, field, target, place)
  }

  /**
    Some contents of its field's bits reach an address from a place exactly if the patch is accepted
    for the nearest number of the address, but for two cases of riscv64's jalr: it is accepted for an
    odd target, which no contents reach, and refused at the edge, from an odd place.
   */
  lemma RefusesExactly(k: Kind, field: seq<Byte>, target: int, place: int)
    requires Sized(k) && |field| == Size(k) && Template(k, field)
    ensures (exists any: seq<Byte> :: Reaches(k, field, any, place, target))
       <==> Reachable(k, field, Near(k, target, place), place)
  {
    hide Patched, Template, Refers, Meets, Riscv64Patch.OddJump, Riscv64Patch.EdgeJump, SameOutside, Near, SameAddress;
    var near := Near(k, target, place);
    if Reachable(k, field, near, place) {
      ReachableReached(k, field, target, near, place);
    } else {
      forall any: seq<Byte> | |any| == Size(k) && SameOutside(k, any, field)
        ensures !Meets(k, any, place, target)
      {
        NoneReaches(k, field, target, place, any);
      }
    }
  }

  lemma ReachableReached(k: Kind, field: seq<Byte>, target: int, near: int, place: int)
    requires Sized(k) && |field| == Size(k) && Template(k, field)
    requires SameAddress(near, target) && Reachable(k, field, near, place)
    ensures exists any: seq<Byte> :: Reaches(k, field, any, place, target)
  {
    hide Patched, Template, Refers, Meets, Riscv64Patch.OddJump, Riscv64Patch.EdgeJump, SameOutside, SameAddress;
    var number := if EdgeJump(k, field, near, place) then near + 1 else near;
    if EdgeJump(k, field, near, place) {
      EdgeReached(k, field, near, place);
    } else {
      Lands(k, field, near, place);
    }
    PatchStaysInside(k, field, number, place);
    RefersMeets(k, Patched(k, field, number, place).value, place, near, target);
    assert Reaches(k, field, Patched(k, field, number, place).value, place, target);
  }

  /** What `apply` decides about a number is right about the address. */
  ghost predicate Decides(k: Kind, field: seq<Byte>, target: int, place: int)
    requires Sized(k) && |field| == Size(k)
  {
    (exists any: seq<Byte> :: Reaches(k, field, any, place, target)) <==> Reachable(k, field, target, place)
  }

  /**
    A target is refused although some contents reach it exactly if the nearest number of the same
    address would not be refused; so never if the target is that number.
   */
  lemma DecidesExactly(k: Kind, field: seq<Byte>, target: int, place: int)
    requires Sized(k) && |field| == Size(k) && Template(k, field)
    ensures Decides(k, field, target, place)
       <==> (Reachable(k, field, Near(k, target, place), place) ==> Reachable(k, field, target, place))
    ensures Near(k, target, place) == target ==> Decides(k, field, target, place)
  {
    hide Reachable, Reaches, Template, SameAddress, Near;
    RefusesExactly(k, field, target, place);
    if Reachable(k, field, target, place) {
      SameSelf(target);
      ReachableReached(k, field, target, target, place);
    }
  }

  /** Four bytes from 0x1000 reach the upper end of the address space, but `apply` refuses it. */
  lemma WrapExample()
    ensures var target, place := 0xFFFF_FFFF_FF60_0000, 0x1000;
      && Patched(Rel(4), Zeros(4), target, place).None?
      && Meets(Rel(4), [0xFC, 0xEF, 0x5F, 0xFF], place, target)
      && !Decides(Rel(4), Zeros(4), target, place)
  {
    var target, place, any := 0xFFFF_FFFF_FF60_0000, 0x1000, [0xFC, 0xEF, 0x5F, 0xFF];
    PowTable();
    Riscv64Patch.WordOf(0xFC, 0xEF, 0x5F, 0xFF);
    hide Pow2, FromLE;
    assert Reaches(Rel(4), Zeros(4), any, place, target);
  }

  lemma EdgeReached(k: Kind, field: seq<Byte>, target: int, place: int)
    requires Sized(k) && |field| == Size(k) && Template(k, field) && EdgeJump(k, field, target, place)
    ensures Patched(k, field, target + 1, place).Some?
    ensures Refers(k, Patched(k, field, target + 1, place).value, place, target)
  {
    hide OrEdits, Riscv64Patch.EdgeJump;
    Riscv64Patch.EdgeReached(k.rv, field, target, place);
  }

  lemma NoneReaches(k: Kind, field: seq<Byte>, target: int, place: int, any: seq<Byte>)
    requires Sized(k) && |field| == |any| == Size(k) && SameOutside(k, any, field)
    requires !Reachable(k, field, Near(k, target, place), place)
    ensures !Meets(k, any, place, target)
  {
    hide Patched, OrEdits, Riscv64Patch.Shape, Relocation.SameOutside, Near;
    if k.Riscv64? {
      Riscv64Patch.SameOpcode(k.rv, field, any);
    }
    if Patched(k, field, Near(k, target, place), place).Some? {
      Riscv64Patch.JalrIsEven(any, place);
      SameParity(Riscv64Patch.Address(k.rv, any, place), target, Near(k, target, place));
    } else {
      Misses(k, field, target, place, any);
    }
  }

  lemma SameParity(address: int, target: int, near: int)
    requires SameAddress(near, target) && address % 2 == 0 && near % 2 == 1
    ensures !SameAddress(address, target)
  {
  }

  /** Success does not depend on what the field held. */
  lemma SuccessIgnoresBytes(k: Kind, f: seq<Byte>, g: seq<Byte>, target: int, place: int)
    requires Sized(k) && |f| == |g| == Size(k)
    ensures Patched(k, f, target, place).Some? == Patched(k, g, target, place).Some?
  {
    hide ToLE, OrEdits, Half, Wrap;
  }

  predicate Paged(k: Kind)
  {
    (k.Loong64? && k.la == Loong64Patch.Pcala) || (k.Aarch64? && k.a64 == Aarch64Patch.Adrp)
  }

  /** Every kind but Abs depends only on the displacement, the paged ones up to whole pages. */
  lemma PatchedIsRelative(k: Kind, field: seq<Byte>, target: int, place: int, delta: int)
    requires Sized(k) && |field| == Size(k) && !k.Abs?
    requires Paged(k) ==> delta % 0x1000 == 0
    ensures Patched(k, field, target + delta, place + delta) == Patched(k, field, target, place)
  {
    hide ToLE, OrEdits, Half;
    match k
    case Rel(size) => assert (target + delta) - ((place + delta) + size) == target - (place + size);
    case Riscv64(rv) => Riscv64Patch.PlanIsRelative(rv, field, target, place, delta);
    case Loong64(la) => Loong64Patch.PlanIsRelative(la, target, place, delta);
    case Aarch64(a64) => Aarch64Patch.PlanIsRelative(a64, target, place, delta);
    case Slot(_) =>
  }

  /** `p.kind.apply(buf, at, target, place)`; false is the LinkError. */
  method Apply(k: Kind, buf: array<Byte>, at: nat, target: int, place: int) returns (ok: bool)
    requires Sized(k) && at + Size(k) <= buf.Length
    modifies buf
    ensures ok == Patched(k, old(buf[at..at + Size(k)]), target, place).Some?
    ensures ok ==> buf[..] == old(buf[..at]) + Patched(k, old(buf[at..at + Size(k)]), target, place).value
                              + old(buf[at + Size(k)..])
    ensures !ok ==> buf[..] == old(buf[..])
  {
    hide ToLE, OrEdits, Half;
    match k {
      case Abs(size) =>
        if !(-Half(size) <= target < 2 * Half(size)) {
          return false;
        }
        Store(buf, at, ToLE(target % (2 * Half(size)), size));
        ok := true;
      case Rel(size) =>
        var value := target - (place + size);
        if !(-Half(size) <= value < Half(size)) {
          return false;
        }
        Store(buf, at, ToLE(value % (2 * Half(size)), size));
        ok := true;
      case Riscv64(rv) => ok := Riscv64Patch.Apply(rv, buf, at, target, place);
      case Loong64(la) => ok := Loong64Patch.Apply(la, buf, at, target, place);
      case Aarch64(a64) => ok := Aarch64Patch.Apply(a64, buf, at, target, place);
      case Slot(_) => ok := false;
    }
  }
}
