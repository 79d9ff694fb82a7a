/** Octets and the big-endian and little-endian integer fields the capture and RTP code packs and unpacks. */
module Bytes {

  type byte = x: int | 0 <= x < 0x100
  type uint16 = x: int | 0 <= x < 0x1_0000
  type uint32 = x: int | 0 <= x < 0x1_0000_0000
  type bytes = seq<byte>

  datatype Option<+T> = None | Some(value: T)

  /** Network-order 16-bit field. */
  function PutU16(v: uint16): (b: bytes)
    ensures |b| == 2
  {
    [v / 0x100, v % 0x100]
  }

  function GetU16(b: bytes, i: nat): (v: uint16)
    requires i + 2 <= |b|
  {
    b[i] as int * 0x100 + b[i + 1]
  }

  /** Network-order 32-bit field. */
  function PutU32(v: uint32): (b: bytes)
    ensures |b| == 4
  {
    PutU16(v / 0x1_0000) + PutU16(v % 0x1_0000)
  }

  function GetU32(b: bytes, i: nat): (v: uint32)
    requires i + 4 <= |b|
  {
    GetU16(b, i) as int * 0x1_0000 + GetU16(b, i + 2)
  }

  /** Little-endian 32-bit field, for captures written on the other byte order. */
  function GetU32Little(b: bytes, i: nat): (v: uint32)
    requires i + 4 <= |b|
  {
    b[i] as int + b[i + 1] as int * 0x100 + b[i + 2] as int * 0x1_0000 + b[i + 3] as int * 0x100_0000
  }

  /** The most significant octet comes first, except on the other byte order, where it comes last. */
  lemma {:induction false} NetworkOrder(b: bytes)
    requires |b| == 4
    ensures PutU16(0x1234) == [0x12, 0x34] && PutU32(0x1234_5678) == [0x12, 0x34, 0x56, 0x78]
    ensures PutU32(GetU32(b, 0)) == b
    ensures GetU32Little([b[3], b[2], b[1], b[0]], 0) == GetU32(b, 0)
  {
    var v := GetU32(b, 0);
    assert v / 0x1_0000 == GetU16(b, 0) && v % 0x1_0000 == GetU16(b, 2);
  }

  lemma {:induction false} U32At(b: bytes, i: nat, v: uint32)
    requires i + 4 <= |b|
    requires b[i..i + 4] == PutU32(v)
    ensures GetU32(b, i) == v
  {
    var f := b[i..i + 4];
    assert f[0] == b[i] && f[1] == b[i + 1] && f[2] == b[i + 2] && f[3] == b[i + 3];
  }

  /** The middle of three joined parts. */
  lemma {:induction false} Middle(a: bytes, b: bytes, c: bytes)
    ensures (a + (b + c))[|a|..|a| + |b|] == b
    ensures a + (b + c) == (a + b) + c
  {
  }

  lemma {:induction false} U16At(a: bytes, v: uint16, c: bytes)
    ensures |a + (PutU16(v) + c)| >= |a| + 2
    ensures GetU16(a + (PutU16(v) + c), |a|) == v
  {
    var b := a + (PutU16(v) + c);
    assert b[|a|] == PutU16(v)[0] && b[|a| + 1] == PutU16(v)[1];
  }

  function Flatten(parts: seq<bytes>): (b: bytes) {
    if parts == [] then [] else parts[0] + Flatten(parts[1..])
  }

  lemma {:induction false} FlattenAppend(a: seq<bytes>, b: seq<bytes>)
    ensures Flatten(a + b) == Flatten(a) + Flatten(b)
  {
    if a == [] {
      assert a + b == b;
    } else {
      FlattenAppend(a[1..], b);
      assert (a + b)[1..] == a[1..] + b;
      Middle(a[0], Flatten(a[1..]), Flatten(b));
    }
  }
}
