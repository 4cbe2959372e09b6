/** PackBits (TIFF Revision 6.0, section 9): the broker's encoder and the firmware's decoder. */
module PackBits {
  import opened Arith
  import opened Bytes

  const MAX_PACKET: nat := 128

  // ---- The encoder as a function of the bytes still to be sent

  /** Length of the run of identical bytes at the head of s, given that s[..k] is already one. */
  function RunFrom(s: seq<byte>, k: nat): (r: nat)
    requires 1 <= k <= |s| && k <= MAX_PACKET
    requires forall i :: 0 <= i < k ==> s[i] == s[0]
    ensures k <= r <= |s| && r <= MAX_PACKET
    ensures forall i :: 0 <= i < r ==> s[i] == s[0]
    ensures r == |s| || r == MAX_PACKET || s[r] != s[0]
    decreases |s| - k
  {
    if k < |s| && s[k] == s[0] && k < MAX_PACKET then RunFrom(s, k + 1) else k
  }

  /** Three equal bytes start at k. */
  predicate Triple(s: seq<byte>, k: nat) {
    k + 2 < |s| && s[k] == s[k + 1] == s[k + 2]
  }

  /** Length of the literal at the head of s, given that no triple starts before k. */
  function LiteralFrom(s: seq<byte>, k: nat): (r: nat)
    requires k <= |s| && k <= MAX_PACKET
    ensures k <= r <= |s| && r <= MAX_PACKET
    ensures forall i :: k <= i < r ==> !Triple(s, i)
    ensures r == |s| || r == MAX_PACKET || Triple(s, r)
    decreases |s| - k
  {
    if k < |s| && k < MAX_PACKET && !Triple(s, k) then LiteralFrom(s, k + 1) else k
  }

  /** How many source bytes the packet at the head of s takes. */
  function HeadLength(s: seq<byte>): (n: nat)
    requires s != []
    ensures 1 <= n <= |s| && n <= MAX_PACKET
  {
    var run := RunFrom(s, 1);
    if run >= 2 then run else LiteralFrom(s, 0)
  }

  /** The packet itself: control byte 257 - n and a value, or n - 1 and n literal bytes. */
  function HeadPacket(s: seq<byte>): (p: seq<byte>)
    requires s != []
    ensures |p| >= 2
  {
    var run := RunFrom(s, 1);
    if run >= 2 then [257 - run, s[0]] else
      var n := LiteralFrom(s, 0);
      [n - 1] + s[..n]
  }

  function Encode(s: seq<byte>): seq<byte> {
    if s == [] then [] else HeadPacket(s) + Encode(s[HeadLength(s)..])
  }

  // ---- The decoder as a function of the bytes still to be read and the room left

  /** The bytes the packet at the head of c puts on the screen; 0x80 is a no-op. */
  function Emits(c: seq<byte>, room: nat): (r: seq<byte>)
    requires c != []
    ensures |r| <= room
  {
    if c[0] < 128 then c[1..1 + Min(c[0] + 1, Min(|c| - 1, room))]
    else if c[0] == 128 || |c| == 1 then []
    else Repeat(c[1], Min(257 - c[0], room))
  }

  /** How many input bytes the packet at the head of c uses up. */
  function Takes(c: seq<byte>, room: nat): (n: nat)
    requires c != []
    ensures 1 <= n <= |c|
  {
    if c[0] < 128 then 1 + Min(c[0] + 1, Min(|c| - 1, room))
    else if c[0] == 128 || |c| == 1 then 1
    else 2
  }

  function Decode(c: seq<byte>, room: nat): (r: seq<byte>)
    ensures |r| <= room
    decreases |c|
  {
    if c == [] || room == 0 then []
    else Emits(c, room) + Decode(c[Takes(c, room)..], room - |Emits(c, room)|)
  }

  // ---- The two programs

  /** packbits.go: the loops of PackBits produce exactly Encode(src). */
  method PackBits(src: seq<byte>) returns (out: seq<byte>)
    ensures out == Encode(src)
  {
    hide Encode, RunFrom, LiteralFrom;
    out := [];
    var n := |src|;
    var i := 0;
    assert src[0..] == src;
    while i < n
      invariant 0 <= i <= n
      invariant out + Encode(src[i..]) == Encode(src)
    {
      var runVal := src[i];
      var runLen := RunLength(src, i);
      if runLen >= 2 {
        EncodeStep(src, i, out, [257 - runLen, runVal]);
        out := out + [257 - runLen, runVal];
        i := i + runLen;
      } else {
        var litLen := LiteralLength(src, i);
        SliceOfTail(src, i, 0, litLen);
        EncodeStep(src, i, out, [litLen - 1] + src[i..i + litLen]);
        out := out + ([litLen - 1] + src[i..i + litLen]);
        i := i + litLen;
      }
    }
    assert src[i..] == [] && Encode([]) == [] by {
      EncodeEmpty();
    }
  }

  /** packbits.go: the inner loop that counts identical bytes, at most 128 of them. */
  method RunLength(src: seq<byte>, i: nat) returns (runLen: nat)
    requires i < |src|
    ensures runLen == RunFrom(src[i..], 1)
  {
    ghost var rest := src[i..];
    var n := |src|;
    runLen := 1;
    while i + runLen < n && src[i + runLen] == src[i] && runLen < 128
      invariant 1 <= runLen <= 128 && i + runLen <= n
      invariant forall k :: 0 <= k < runLen ==> rest[k] == rest[0]
      invariant RunFrom(rest, runLen) == RunFrom(rest, 1)
    {
      assert rest[runLen] == src[i + runLen];
      runLen := runLen + 1;
    }
    assert i + runLen < n ==> rest[runLen] == src[i + runLen];
  }

  /** packbits.go: the inner loop that gathers a literal until a triple begins or 128 bytes are taken. */
  method LiteralLength(src: seq<byte>, start: nat) returns (litLen: nat)
    requires start < |src|
    ensures litLen == LiteralFrom(src[start..], 0)
  {
    ghost var rest := src[start..];
    var n := |src|;
    var i := start;
    litLen := 0;
    while i < n && litLen < 128
      invariant i == start + litLen <= n && litLen <= 128
      invariant LiteralFrom(rest, litLen) == LiteralFrom(rest, 0)
    {
      if i + 2 < n && src[i] == src[i + 1] && src[i + 1] == src[i + 2] {
        break;
      }
      i := i + 1;
      litLen := litLen + 1;
    }
  }

  lemma Associative<T>(a: seq<T>, b: seq<T>, c: seq<T>)
    ensures a + b + c == a + (b + c)
  {
  }

  lemma SliceOfTail<T>(s: seq<T>, i: nat, lo: nat, hi: nat)
    requires lo <= hi && i + hi <= |s|
    ensures s[i..][lo..hi] == s[i + lo..i + hi]
  {
  }

  lemma EncodeEmpty()
    ensures Encode([]) == []
  {
  }

  lemma EncodeUnfold(s: seq<byte>)
    requires s != []
    ensures Encode(s) == HeadPacket(s) + Encode(s[HeadLength(s)..])
  {
  }

  lemma EncodeStep(src: seq<byte>, i: nat, out: seq<byte>, packet: seq<byte>)
    requires i < |src|
    requires out + Encode(src[i..]) == Encode(src)
    requires packet == HeadPacket(src[i..])
    ensures out + packet + Encode(src[i + HeadLength(src[i..])..]) == Encode(src)
  {
    hide *;
    var rest := src[i..];
    var tail := src[i + HeadLength(rest)..];
    assert rest[HeadLength(rest)..] == tail;
    EncodeUnfold(rest);
    Associative(out, packet, Encode(tail));
  }

  lemma DecodeDone(c: seq<byte>, room: nat)
    requires c == [] || room == 0
    ensures Decode(c, room) == []
  {
  }

  lemma DecodeUnfold(c: seq<byte>, room: nat)
    requires c != [] && room > 0
    ensures Decode(c, room) == Emits(c, room) + Decode(c[Takes(c, room)..], room - |Emits(c, room)|)
  {
  }

  lemma DecodeStep(comp: seq<byte>, i: nat, room: nat, shown: seq<byte>, full: seq<byte>)
    requires i < |comp| && room > 0
    requires shown + Decode(comp[i..], room) == full
    ensures var c := comp[i..];
            shown + Emits(c, room) + Decode(comp[i + Takes(c, room)..], room - |Emits(c, room)|) == full
  {
    hide *;
    var c := comp[i..];
    DecodeUnfold(c, room);
    assert c[Takes(c, room)..] == comp[i + Takes(c, room)..];
    Associative(shown, Emits(c, room), Decode(c[Takes(c, room)..], room - |Emits(c, room)|));
  }

  /** protocol.hpp: packbits_decode, with the sink that stores into a framebuffer. */
  method PackBitsDecode(comp: seq<byte>, rawLen: nat, fb: array<byte>) returns (produced: nat)
    requires rawLen <= fb.Length
    modifies fb
    ensures produced == |Decode(comp, rawLen)| <= rawLen
    ensures fb[..produced] == Decode(comp, rawLen)
    ensures forall j :: produced <= j < fb.Length ==> fb[j] == old(fb[j])
  {
    hide Decode, Emits, Takes;
    var i := 0;
    produced := 0;
    ghost var full := Decode(comp, rawLen);
    assert comp[0..] == comp;
    while i < |comp| && produced < rawLen
      invariant 0 <= i <= |comp| && produced <= rawLen
      invariant fb[..produced] + Decode(comp[i..], rawLen - produced) == full
      invariant forall j :: produced <= j < fb.Length ==> fb[j] == old(fb[j])
    {
      DecodeStep(comp, i, rawLen - produced, fb[..produced], full);
      produced, i := DecodePacket(comp, rawLen, fb, produced, i);
    }
    DecodeDone(comp[i..], rawLen - produced);
  }

  /** The body of the decoding loop: one control byte and what follows it. */
  method DecodePacket(comp: seq<byte>, rawLen: nat, fb: array<byte>, base: nat, start: nat)
    returns (produced: nat, i: nat)
    requires base < rawLen <= fb.Length && start < |comp|
    modifies fb
    ensures i == start + Takes(comp[start..], rawLen - base)
    ensures produced == base + |Emits(comp[start..], rawLen - base)|
    ensures fb[..produced] == old(fb[..base]) + Emits(comp[start..], rawLen - base)
    ensures forall j :: produced <= j < fb.Length ==> fb[j] == old(fb[j])
  {
    i, produced := start, base;
    var ctrl := comp[i];
    i := i + 1;
    if ctrl < 128 {
      produced, i := CopyLiteral(comp, rawLen, fb, produced, i, ctrl + 1);
      SliceOfTail(comp, start, 1, i - start);
    } else if ctrl != 128 {
      if i >= |comp| {
        return;
      }
      var v := comp[i];
      i := i + 1;
      produced := Replicate(rawLen, fb, produced, v, 257 - ctrl);
    }
  }

  /** The literal loop of packbits_decode: it stops at the packet, at the input or when the screen is full. */
  method CopyLiteral(comp: seq<byte>, rawLen: nat, fb: array<byte>, base: nat, start: nat, count: nat)
    returns (produced: nat, i: nat)
    requires base <= rawLen <= fb.Length && start <= |comp|
    modifies fb
    ensures produced == base + Min(count, Min(|comp| - start, rawLen - base)) && i - start == produced - base
    ensures i <= |comp|
    ensures fb[..produced] == old(fb[..base]) + comp[start..i]
    ensures forall j :: produced <= j < fb.Length ==> fb[j] == old(fb[j])
  {
    i, produced := start, base;
    var k := 0;
    while k < count && i < |comp| && produced < rawLen
      invariant k <= count && i == start + k <= |comp| && produced == base + k <= rawLen
      invariant forall j :: 0 <= j < base ==> fb[j] == old(fb[j])
      invariant forall j :: base <= j < produced ==> fb[j] == comp[start + j - base]
      invariant forall j :: produced <= j < fb.Length ==> fb[j] == old(fb[j])
    {
      fb[produced] := comp[i];
      i := i + 1;
      produced := produced + 1;
      k := k + 1;
    }
  }

  /** The replicate loop of packbits_decode. */
  method Replicate(rawLen: nat, fb: array<byte>, base: nat, v: byte, count: nat) returns (produced: nat)
    requires base <= rawLen <= fb.Length
    modifies fb
    ensures produced == base + Min(count, rawLen - base)
    ensures fb[..produced] == old(fb[..base]) + Repeat(v, produced - base)
    ensures forall j :: produced <= j < fb.Length ==> fb[j] == old(fb[j])
  {
    produced := base;
    var k := 0;
    while k < count && produced < rawLen
      invariant k <= count && produced == base + k <= rawLen
      invariant forall j :: 0 <= j < base ==> fb[j] == old(fb[j])
      invariant forall j :: base <= j < produced ==> fb[j] == v
      invariant forall j :: produced <= j < fb.Length ==> fb[j] == old(fb[j])
    {
      fb[produced] := v;
      produced := produced + 1;
      k := k + 1;
    }
  }
}
