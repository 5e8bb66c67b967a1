/** Machine integers, C strings and the little-endian words of a .scmlbin image. */
module Bytes {

  type byte = b: int | 0 <= b < 0x100
  type uint32 = u: int | 0 <= u < 0x1_0000_0000
  type int32 = i: int | -0x8000_0000 <= i < 0x8000_0000

  /** A C string, or the raw bytes of a text operand. */
  type Text = seq<byte>

  datatype Option<+T> = None | Some(value: T)
  datatype Result<+T, +E> = Success(value: T) | Failure(error: E)

  /** The casts (uint32_t)i, (int32_t)u and (size_t)i. */
  function U32(i: int32): uint32 { if i < 0 then i + 0x1_0000_0000 else i }
  function I32(u: uint32): int32 { if u < 0x8000_0000 then u else u - 0x1_0000_0000 }
  function SizeT(i: int32): nat { if i < 0 then i + 0x1_0000_0000_0000_0000 else i }

  function W16(v: nat): (bs: seq<byte>)
    requires v < 0x1_0000
    ensures |bs| == 2
  {
    [v % 0x100, v / 0x100]
  }

  function W32(v: uint32): (bs: seq<byte>)
    ensures |bs| == 4
  {
    [v % 0x100, v / 0x100 % 0x100, v / 0x1_0000 % 0x100, v / 0x100_0000]
  }

  function R16(bs: seq<byte>): nat
    requires |bs| >= 2
  {
    bs[0] as int + 0x100 * (bs[1] as int)
  }

  function R32(bs: seq<byte>): uint32
    requires |bs| >= 4
  {
    bs[0] as int + 0x100 * (bs[1] as int) + 0x1_0000 * (bs[2] as int) + 0x100_0000 * (bs[3] as int)
  }

  /** Writing a word and reading it back, whatever follows it. */
  lemma ReadWritten16(v: nat, rest: seq<byte>)
    requires v < 0x1_0000
    ensures R16(W16(v) + rest) == v
  {
  }

  lemma ReadWritten32(v: uint32, rest: seq<byte>)
    ensures R32(W32(v) + rest) == v
  {
    var a, b, c := v / 0x100, v / 0x1_0000, v / 0x100_0000;
    assert b == a / 0x100 && c == b / 0x100;
  }

  /** Reading a word and writing it back. */
  lemma WrittenRead16(bs: seq<byte>)
    requires |bs| >= 2
    ensures R16(bs) < 0x1_0000 && W16(R16(bs)) == bs[..2]
  {
  }

  lemma WrittenRead32(bs: seq<byte>)
    requires |bs| >= 4
    ensures W32(R32(bs)) == bs[..4]
  {
    var v, b0, b1, b2, b3: int := R32(bs), bs[0], bs[1], bs[2], bs[3];
    var w := b1 + 0x100 * b2 + 0x1_0000 * b3;
    assert v == b0 + 0x100 * w;
    assert v / 0x100 == w;
    assert v / 0x1_0000 == w / 0x100 == b2 + 0x100 * b3;
    assert v / 0x100_0000 == b3;
  }

  /** The number that bytes denote, least significant byte first. */
  function Number(bs: seq<byte>): nat {
    if bs == [] then 0 else bs[0] as int + 0x100 * Number(bs[1..])
  }

  lemma Word16(v: nat)
    requires v < 0x1_0000
    ensures Number(W16(v)) == v
  {
    var bs := W16(v);
    assert bs[1..] == [bs[1]] && bs[1..][1..] == [];
    assert Number(bs[1..]) == bs[1] as int;
  }

  lemma Word32(v: uint32)
    ensures Number(W32(v)) == v
  {
    var bs := W32(v);
    ReadWritten32(v, []);
    assert bs + [] == bs;
    NumberOfFour(bs);
  }

  lemma NumberOfFour(bs: seq<byte>)
    requires |bs| == 4
    ensures Number(bs) == R32(bs)
  {
    var c := bs[1..];
    var d := c[1..];
    assert d[1..] == [bs[3]] && d[1..][1..] == [];
    assert Number(d[1..]) == bs[3] as int;
    assert Number(d) == bs[2] as int + 0x100 * Number(d[1..]);
    assert Number(c) == bs[1] as int + 0x100 * Number(d);
  }

  /** What a C library call sees of a buffer: the bytes before the first NUL. */
  function CString(t: Text): (s: Text)
    ensures 0 !in s && s <= t
    ensures |s| == |t| || t[|s|] == 0
  {
    if t == [] || t[0] == 0 then [] else [t[0]] + CString(t[1..])
  }

  lemma NoNulIsCString(t: Text)
    requires 0 !in t
    ensures CString(t) == t
  {
  }
}
