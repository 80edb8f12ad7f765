/** Little endian bytes, and the read-modify-write of an instruction word that relocations use. */
module Bytes {
  import opened Bits

  type Byte = b: nat | b < 256

  function FromLE(bytes: seq<Byte>): nat
  {
    if bytes == [] then 0 else bytes[0] + 256 * FromLE(bytes[1..])
  }

  function ToLE(v: nat, size: nat): (bytes: seq<Byte>)
    ensures |bytes| == size
  {
    if size == 0 then [] else [v % 256] + ToLE(v / 256, size - 1)
  }

  lemma {:induction false} FromToLE(v: nat, size: nat)
    requires v < Pow2(8 * size)
    ensures FromLE(ToLE(v, size)) == v
  {
    if size > 0 {
      assert Pow2(8 * size) == 256 * Pow2(8 * (size - 1)) by { PowAdd(8, 8 * (size - 1)); }
      FromToLE(v / 256, size - 1);
    }
  }

  lemma {:induction false} ToFromLE(bytes: seq<Byte>)
    ensures ToLE(FromLE(bytes), |bytes|) == bytes
  {
    if bytes != [] {
      var rest := FromLE(bytes[1..]);
      DivModUnique(bytes[0] + 256 * rest, 256, rest, bytes[0]);
      ToFromLE(bytes[1..]);
    }
  }

  lemma {:induction false} FromLEBound(bytes: seq<Byte>)
    ensures FromLE(bytes) < Pow2(8 * |bytes|)
  {
    if bytes != [] {
      assert Pow2(8 * |bytes|) == 256 * Pow2(8 * (|bytes| - 1)) by { PowAdd(8, 8 * (|bytes| - 1)); }
      FromLEBound(bytes[1..]);
    }
  }

  function Zeros(n: nat): seq<Byte>
  {
    seq(n, _ => 0)
  }

  lemma {:induction false} FromZeros(n: nat)
    ensures FromLE(Zeros(n)) == 0
  {
    if n > 0 {
      assert Zeros(n)[1..] == Zeros(n - 1);
      FromZeros(n - 1);
    }
  }

  /** The 32 bit word at `at`, with `bits` set in it. */
  function OrWordAt(bytes: seq<Byte>, at: nat, bits: nat): (r: seq<Byte>)
    requires at + 4 <= |bytes|
    ensures |r| == |bytes|
  {
    bytes[..at] + ToLE(Or(FromLE(bytes[at..at + 4]), bits), 4) + bytes[at + 4..]
  }

  lemma OrWordElsewhere(bytes: seq<Byte>, at: nat, bits: nat)
    requires at + 4 <= |bytes|
    ensures OrWordAt(bytes, at, bits)[..at] == bytes[..at]
    ensures OrWordAt(bytes, at, bits)[at + 4..] == bytes[at + 4..]
    ensures at + 4 < |bytes| ==> OrWordAt(bytes, at, bits)[at + 4] == bytes[at + 4]
  {
  }

  /** A slice of a buffer overwritten by bytes of the same length. */
  method Store(buf: array<Byte>, at: nat, v: seq<Byte>)
    requires at + |v| <= buf.Length
    modifies buf
    ensures buf[..] == old(buf[..at]) + v + old(buf[at + |v|..])
  {
    for i := 0 to |v|
      invariant forall k | 0 <= k < i :: buf[at + k] == v[k]
      invariant forall k | 0 <= k < buf.Length && !(at <= k < at + i) :: buf[k] == old(buf[k])
    {
      buf[at + i] := v[i];
    }
  }

  method OrWord(buf: array<Byte>, at: nat, bits: nat)
    requires at + 4 <= buf.Length
    modifies buf
    ensures buf[..] == OrWordAt(old(buf[..]), at, bits)
  {
    var word := Or(FromLE(buf[at..at + 4]), bits);
    assert buf[..][at..at + 4] == buf[at..at + 4];
    assert buf[..][..at] == buf[..at] && buf[..][at + 4..] == buf[at + 4..];
    Store(buf, at, ToLE(word, 4));
  }
}
