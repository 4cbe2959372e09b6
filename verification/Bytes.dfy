/** Bytes, fixed-width unsigned integers and the little-endian layout both sides of the wire use. */
module Bytes {
  type byte = b: int | 0 <= b < 0x100
  type uint16 = v: int | 0 <= v < 0x1_0000
  type uint32 = v: int | 0 <= v < 0x1_0000_0000

  /** n copies of one byte. */
  function Repeat(b: byte, n: nat): (r: seq<byte>)
    ensures |r| == n && forall i :: 0 <= i < n ==> r[i] == b
  {
    seq(n, _ => b)
  }

  /** s with the elements from off on overwritten by part. */
  function Splice<T>(s: seq<T>, off: nat, part: seq<T>): (r: seq<T>)
    requires off + |part| <= |s|
    ensures |r| == |s|
  {
    s[..off] + part + s[off + |part|..]
  }

  /** Little-endian bytes of a 16-bit value. */
  function Le16(v: uint16): (r: seq<byte>)
    ensures |r| == 2
  {
    [v % 0x100, v / 0x100]
  }

  /** Little-endian bytes of a 32-bit value. */
  function Le32(v: uint32): (r: seq<byte>)
    ensures |r| == 4
  {
    [v % 0x100, v / 0x100 % 0x100, v / 0x1_0000 % 0x100, v / 0x100_0000]
  }

  /** The 16-bit value stored at off. */
  function GetU16(s: seq<byte>, off: nat): uint16
    requires off + 2 <= |s|
  {
    s[off] as int + 0x100 * s[off + 1] as int
  }

  /** The 32-bit value stored at off. */
  function GetU32(s: seq<byte>, off: nat): uint32
    requires off + 4 <= |s|
  {
    s[off] as int + 0x100 * s[off + 1] as int + 0x1_0000 * s[off + 2] as int + 0x100_0000 * s[off + 3] as int
  }

  // ---- What the bytes say

  /** The two bytes at off, least significant first, say n. */
  ghost predicate Says16(s: seq<byte>, off: nat, n: int) {
    off + 2 <= |s| && n == s[off] as int + 256 * s[off + 1] as int
  }

  /** The four bytes at off, least significant first, say n. */
  ghost predicate Says32(s: seq<byte>, off: nat, n: int) {
    off + 4 <= |s|
    && n == s[off] as int + 256 * s[off + 1] as int + 65536 * s[off + 2] as int + 16777216 * s[off + 3] as int
  }

  lemma Le16Says(s: seq<byte>, off: nat, v: uint16)
    requires off + 2 <= |s| && s[off..off + 2] == Le16(v)
    ensures Says16(s, off, v)
  {
    assert s[off] == s[off..off + 2][0] && s[off + 1] == s[off..off + 2][1];
  }

  lemma Le32Says(s: seq<byte>, off: nat, v: uint32)
    requires off + 4 <= |s| && s[off..off + 4] == Le32(v)
    ensures Says32(s, off, v)
  {
    var p := s[off..off + 4];
    assert s[off] == p[0] && s[off + 1] == p[1] && s[off + 2] == p[2] && s[off + 3] == p[3];
    assert v / 0x1_0000 == v / 0x100 / 0x100 && v / 0x100_0000 == v / 0x1_0000 / 0x100;
  }

  lemma ReadLe16(s: seq<byte>, off: nat, v: uint16)
    requires off + 2 <= |s| && s[off..off + 2] == Le16(v)
    ensures GetU16(s, off) == v
  {
    assert s[off] == s[off..off + 2][0] && s[off + 1] == s[off..off + 2][1];
  }

  lemma ReadLe32(s: seq<byte>, off: nat, v: uint32)
    requires off + 4 <= |s| && s[off..off + 4] == Le32(v)
    ensures GetU32(s, off) == v
  {
    var p := s[off..off + 4];
    assert s[off] == p[0] && s[off + 1] == p[1] && s[off + 2] == p[2] && s[off + 3] == p[3];
    assert v / 0x1_0000 == v / 0x100 / 0x100 && v / 0x100_0000 == v / 0x1_0000 / 0x100;
  }

  /** Copy part into buf at off, the way Go's copy and PutUint do. */
  method CopyInto(buf: array<byte>, off: nat, part: seq<byte>)
    requires off + |part| <= buf.Length
    modifies buf
    ensures buf[..] == Splice(old(buf[..]), off, part)
  {
    for i := 0 to |part|
      invariant forall k :: 0 <= k < off ==> buf[k] == old(buf[k])
      invariant forall k :: off <= k < off + i ==> buf[k] == part[k - off]
      invariant forall k :: off + i <= k < buf.Length ==> buf[k] == old(buf[k])
    {
      buf[off + i] := part[i];
    }
  }

  /** Write part right after the off bytes already written. */
  method Append(buf: array<byte>, off: nat, part: seq<byte>)
    requires off + |part| <= buf.Length
    modifies buf
    ensures buf[..off + |part|] == old(buf[..off]) + part
    ensures forall k :: off + |part| <= k < buf.Length ==> buf[k] == old(buf[k])
  {
    CopyInto(buf, off, part);
  }
}
