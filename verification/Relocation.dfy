/** What every relocation kind that patches instruction words has in common. */
module Relocation {
  import opened Bits
  import opened Bytes
  import opened Fields

  /** One word to patch: `value` ORed into the bit fields of `fmt`. */
  datatype Edit = Edit(fmt: Format, value: int)

  predicate FitsWord(fmt: Format)
  {
    WellFormed(fmt) && forall s | s in fmt :: s.to + s.len <= 32
  }

  function Word(bytes: seq<Byte>, i: nat): nat
    requires 4 * i + 4 <= |bytes|
  {
    FromLE(bytes[4 * i..4 * i + 4])
  }

  /** Edit i applied to word i, for consecutive words. */
  function OrEdits(bytes: seq<Byte>, edits: seq<Edit>): (r: seq<Byte>)
    requires |bytes| == 4 * |edits|
    ensures |r| == |bytes|
  {
    if edits == [] then []
    else ToLE(Or(Word(bytes, 0), Scatter(edits[0].fmt, edits[0].value)), 4) + OrEdits(bytes[4..], edits[1..])
  }

  lemma OrWordFits(bytes: seq<Byte>, e: Edit)
    requires |bytes| == 4 && FitsWord(e.fmt)
    ensures FromLE(ToLE(Or(FromLE(bytes), Scatter(e.fmt, e.value)), 4)) == Or(FromLE(bytes), Scatter(e.fmt, e.value))
  {
    hide Or, ToLE, FromLE, Scatter, Pow2;
    FromLEBound(bytes);
    ScatterBound(e.fmt, e.value, 32);
    OrBound(FromLE(bytes), Scatter(e.fmt, e.value), 32);
    FromToLE(Or(FromLE(bytes), Scatter(e.fmt, e.value)), 4);
  }

  lemma LaterWord(head: seq<Byte>, tail: seq<Byte>, i: nat)
    requires |head| == 4 && 0 < i && 4 * i <= |tail|
    ensures (head + tail)[4 * i..4 * i + 4] == tail[4 * (i - 1)..4 * (i - 1) + 4]
  {
  }

  lemma {:induction false} OrEditsWord(bytes: seq<Byte>, edits: seq<Edit>, i: nat)
    requires |bytes| == 4 * |edits| && i < |edits|
    requires FitsWord(edits[i].fmt)
    ensures Word(OrEdits(bytes, edits), i) == Or(Word(bytes, i), Scatter(edits[i].fmt, edits[i].value))
  {
    hide Or, ToLE, FromLE, Scatter, Pow2;
    var r := OrEdits(bytes, edits);
    if i == 0 {
      OrWordFits(bytes[0..4], edits[0]);
      assert r[0..4] == ToLE(Or(Word(bytes, 0), Scatter(edits[0].fmt, edits[0].value)), 4);
    } else {
      OrEditsWord(bytes[4..], edits[1..], i - 1);
      assert bytes[4..][4 * (i - 1)..4 * (i - 1) + 4] == bytes[4 * i..4 * i + 4];
      LaterWord(ToLE(Or(Word(bytes, 0), Scatter(edits[0].fmt, edits[0].value)), 4), OrEdits(bytes[4..], edits[1..]), i);
    }
  }

  predicate Follows(edits: seq<Edit>, shape: seq<Format>)
  {
    |edits| == |shape| && forall i | 0 <= i < |edits| :: edits[i].fmt == shape[i]
  }

  /** The template has zeros in the fields of its format. */
  predicate FieldClear(bytes: seq<Byte>, shape: seq<Format>)
    requires |bytes| == 4 * |shape|
  {
    forall i | 0 <= i < |shape| :: Clear(shape[i], Word(bytes, i))
  }

  /** Outside the patched fields no bit changes, whatever the template held. */
  lemma Untouched(bytes: seq<Byte>, edits: seq<Edit>, i: nat, b: nat)
    requires |bytes| == 4 * |edits| && i < |edits|
    requires FitsWord(edits[i].fmt) && !Covered(edits[i].fmt, b)
    ensures Bit(Word(OrEdits(bytes, edits), i), b) == Bit(Word(bytes, i), b)
  {
    OrEditsWord(bytes, edits, i);
    PatchedElsewhere(edits[i].fmt, Word(bytes, i), edits[i].value, b);
  }

  predicate SameBit(x: seq<Byte>, y: seq<Byte>, i: nat, b: nat)
    requires |x| == |y| && 4 * i + 4 <= |x|
  {
    Bit(Word(x, i), b) == Bit(Word(y, i), b)
  }

  /** The two differ in the bits of the formats at most. */
  ghost predicate SameOutside(x: seq<Byte>, y: seq<Byte>, shape: seq<Format>)
    requires |x| == |y| == 4 * |shape|
  {
    forall i: nat, b: nat | i < |shape| && !Covered(shape[i], b) :: SameBit(x, y, i, b)
  }

  lemma EditsStayInside(bytes: seq<Byte>, edits: seq<Edit>, shape: seq<Format>)
    requires |bytes| == 4 * |shape| && Follows(edits, shape) && forall fmt | fmt in shape :: FitsWord(fmt)
    ensures SameOutside(OrEdits(bytes, edits), bytes, shape)
  {
    hide OrEdits, FitsWord, Bit, Word;
    forall i: nat, b: nat | i < |shape| && !Covered(shape[i], b)
      ensures SameBit(OrEdits(bytes, edits), bytes, i, b)
    {
      Untouched(bytes, edits, i, b);
    }
  }

  /** `_or_word` on one or on two consecutive words of a buffer carries out the edits. */
  lemma OrWordEdits(b: seq<Byte>, at: nat, e: Edit, f: Edit)
    requires at + 8 <= |b|
    ensures OrWordAt(b, at, Scatter(e.fmt, e.value)) == b[..at] + OrEdits(b[at..at + 4], [e]) + b[at + 4..]
    ensures OrWordAt(OrWordAt(b, at, Scatter(e.fmt, e.value)), at + 4, Scatter(f.fmt, f.value))
         == b[..at] + OrEdits(b[at..at + 8], [e, f]) + b[at + 8..]
  {
    OrWordEdit(b, at, e);
    var c := OrWordAt(b, at, Scatter(e.fmt, e.value));
    OrWordEdit(c, at + 4, f);
    hide Or, ToLE, FromLE, Scatter;
    var field := b[at..at + 8];
    assert field[0..4] == b[at..at + 4] && field[4..] == b[at + 4..at + 8] == c[at + 4..at + 8];
    assert [e, f][1..] == [f];
    OrEditsOne(b[at..at + 4], e);
    OrEditsOne(field[4..], f);
  }

  lemma OrEditsOne(bytes: seq<Byte>, e: Edit)
    requires |bytes| == 4
    ensures OrEdits(bytes, [e]) == ToLE(Or(FromLE(bytes), Scatter(e.fmt, e.value)), 4)
  {
    hide Or, ToLE, FromLE, Scatter;
    assert bytes[0..4] == bytes;
    assert OrEdits(bytes[4..], [e][1..]) == [];
  }

  lemma OrWordEdit(b: seq<Byte>, at: nat, e: Edit)
    requires at + 4 <= |b|
    ensures OrWordAt(b, at, Scatter(e.fmt, e.value)) == b[..at] + OrEdits(b[at..at + 4], [e]) + b[at + 4..]
  {
    hide Or, ToLE, FromLE, Scatter;
    OrEditsOne(b[at..at + 4], e);
  }
}
