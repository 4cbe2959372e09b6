/** What the PackBits pair promises: exact round trip, worst-case size, and that no truncation goes unseen. */
module PackBitsTheorems {
  import opened Arith
  import opened Bytes
  import opened PackBits

  // ---- Round trip

  /** The decoder reads the encoder's first packet whole, whatever follows it. */
  lemma HeadRoundTrip(s: seq<byte>, tail: seq<byte>, room: nat)
    requires s != [] && room >= |s|
    ensures var c := HeadPacket(s) + tail;
            && Emits(c, room) == s[..HeadLength(s)]
            && Takes(c, room) == |HeadPacket(s)|
            && c[Takes(c, room)..] == tail
  {
    var p, n := HeadPacket(s), HeadLength(s);
    var c := p + tail;
    assert c[0] == p[0] && c[1] == p[1];
    if RunFrom(s, 1) >= 2 {
      assert Repeat(s[0], n) == s[..n];
    } else {
      LiteralNotEmpty(s);
      assert c[1..n + 1] == s[..n];
    }
  }

  /** A byte that does not start a run of two cannot start a triple either, so the literal advances. */
  lemma LiteralNotEmpty(s: seq<byte>)
    requires s != [] && RunFrom(s, 1) < 2
    ensures LiteralFrom(s, 0) >= 1
  {
  }

  /** Decoding what was encoded gives back the source, and nothing more, for any room that can hold it. */
  lemma {:induction false} RoundTrip(s: seq<byte>, room: nat)
    requires room >= |s|
    ensures Decode(Encode(s), room) == s
    decreases |s|
  {
    hide *;
    if s == [] {
      EncodeEmpty();
      DecodeDone([], room);
    } else {
      var n := HeadLength(s);
      var tail := Encode(s[n..]);
      EncodeUnfold(s);
      HeadRoundTrip(s, tail, room);
      DecodeUnfold(Encode(s), room);
      RoundTrip(s[n..], room - n);
      assert s == s[..n] + s[n..];
    }
  }

  // ---- Truncated input

  /** Cutting the input inside or after its first packet only shortens what that packet emits. */
  lemma EmitsOfPrefix(c: seq<byte>, k: nat, room: nat)
    requires 1 <= k <= |c|
    ensures Takes(c[..k], room) <= Takes(c, room)
    ensures Emits(c[..k], room) <= Emits(c, room)
    ensures Takes(c, room) <= k ==> Takes(c[..k], room) == Takes(c, room) && Emits(c[..k], room) == Emits(c, room)
    ensures Takes(c, room) > k ==> Takes(c[..k], room) == k
  {
    var t := c[..k];
    assert t[0] == c[0];
    if c[0] < 128 {
      var m := Min(c[0] + 1, Min(k - 1, room));
      assert t[1..1 + m] == c[1..1 + m];
    }
  }

  /** The decode of any prefix of any bytes is a prefix of the full decode. */
  lemma {:induction false} PrefixDecodesToPrefix(c: seq<byte>, k: nat, room: nat)
    requires k <= |c|
    ensures Decode(c[..k], room) <= Decode(c, room)
    decreases |c|
  {
    hide *;
    if k == 0 || room == 0 {
      DecodeDone(c[..k], room);
    } else {
      EmitsOfPrefix(c, k, room);
      DecodeUnfold(c, room);
      DecodeUnfold(c[..k], room);
      var n, e := Takes(c, room), Emits(c, room);
      if n <= k {
        assert c[..k][n..] == c[n..][..k - n];
        PrefixDecodesToPrefix(c[n..], k - n, room - |e|);
      } else {
        var cut := Emits(c[..k], room);
        assert c[..k][k..] == [];
        DecodeDone([], room - |cut|);
        assert Decode(c[..k], room) == cut;
      }
    }
  }

  /** What is left of the encoder's first packet when the input stops inside it. */
  lemma CutHeadEmitsLess(s: seq<byte>, tail: seq<byte>, k: nat, room: nat)
    requires s != [] && 1 <= k < |HeadPacket(s)|
    ensures var t := (HeadPacket(s) + tail)[..k]; |Emits(t, room)| < HeadLength(s) && Takes(t, room) <= k
    ensures var t := (HeadPacket(s) + tail)[..k]; Decode(t[Takes(t, room)..], room - |Emits(t, room)|) == []
  {
    var p, t := HeadPacket(s), (HeadPacket(s) + tail)[..k];
    assert t[0] == p[0];
    if RunFrom(s, 1) < 2 {
      LiteralNotEmpty(s);
      if Takes(t, room) < k {
        assert |Emits(t, room)| == room;
        DecodeDone(t[Takes(t, room)..], 0);
      }
    }
  }

  /** Every strict prefix of an encoded frame decodes to strictly fewer bytes than the frame has. */
  lemma {:induction false} TruncationIsCaught(s: seq<byte>, k: nat, room: nat)
    requires k < |Encode(s)|
    ensures |Decode(Encode(s)[..k], room)| < |s|
    decreases |s|
  {
    hide *;
    if s == [] {
      EncodeEmpty();
    }
    var p, n := HeadPacket(s), HeadLength(s);
    var tail := Encode(s[n..]);
    EncodeUnfold(s);
    var t := Encode(s)[..k];
    if room == 0 || k == 0 {
      DecodeDone(t, room);
    } else {
      DecodeUnfold(t, room);
      if k < |p| {
        CutHeadEmitsLess(s, tail, k, room);
      } else {
        assert t == p + tail[..k - |p|];
        PacketNeverExceeds(s, tail[..k - |p|], room);
        assert t[|p|..] == tail[..k - |p|];
        if Takes(t, room) == |p| {
          TruncationIsCaught(s[n..], k - |p|, room - |Emits(t, room)|);
        } else {
          DecodeDone(t[Takes(t, room)..], 0);
        }
      }
    }
  }

  /** A whole packet emits its own source bytes or, when the screen is smaller, fills the screen. */
  lemma PacketNeverExceeds(s: seq<byte>, tail: seq<byte>, room: nat)
    requires s != []
    ensures var c := HeadPacket(s) + tail;
            |Emits(c, room)| <= HeadLength(s)
            && (Takes(c, room) == |HeadPacket(s)| || (|Emits(c, room)| == room < HeadLength(s)))
  {
    var p := HeadPacket(s);
    var c := p + tail;
    assert c[0] == p[0] && c[1] == p[1];
    if RunFrom(s, 1) < 2 {
      LiteralNotEmpty(s);
    }
  }

  // ---- The shape of the encoder's output

  /** c splits into whole packets and none of their control bytes is the no-op 0x80. */
  predicate NoNoOp(c: seq<byte>) {
    c == [] || (
      var n := if c[0] < 128 then c[0] as nat + 2 else 2;
      c[0] != 128 && n <= |c| && NoNoOp(c[n..]))
  }

  lemma {:induction false} NeverEmitsNoOp(s: seq<byte>)
    ensures NoNoOp(Encode(s))
    decreases |s|
  {
    if s != [] {
      var p, n := HeadPacket(s), HeadLength(s);
      EncodeUnfold(s);
      NeverEmitsNoOp(s[n..]);
      assert Encode(s)[0] == p[0];
      if RunFrom(s, 1) < 2 {
        LiteralNotEmpty(s);
      }
      assert Encode(s)[|p|..] == Encode(s[n..]);
    }
  }

  /** n / 128 rounded up: one control byte per started block of 128. */
  function Blocks(n: nat): nat { (n + 127) / 128 }

  /** The bound, sharpened by one byte when s starts with three equal bytes. */
  lemma {:induction false} SizeBound(s: seq<byte>)
    ensures |Encode(s)| <= |s| + Blocks(|s|)
    ensures Triple(s, 0) ==> |Encode(s)| < |s| + Blocks(|s|)
    ensures Triple(s, 0) ==> |Encode(s)| <= |s| - 1 + Blocks(|s| - 3)
    decreases |s|
  {
    if s != [] {
      var n := HeadLength(s);
      EncodeUnfold(s);
      SizeBound(s[n..]);
      if RunFrom(s, 1) < 2 {
        LiteralNotEmpty(s);
        assert Triple(s, n) ==> Triple(s[n..], 0);
      }
    }
  }

  /** The bound is reached: no byte equal to its neighbour means every block of 128 costs one byte. */
  lemma {:induction false} SizeBoundIsTight(s: seq<byte>)
    requires forall i :: 0 <= i < |s| - 1 ==> s[i] != s[i + 1]
    ensures |Encode(s)| == |s| + Blocks(|s|)
    decreases |s|
  {
    if s != [] {
      EncodeUnfold(s);
      assert RunFrom(s, 1) == 1;
      var n := LiteralFrom(s, 0);
      assert n == |s| || n == MAX_PACKET by {
        assert n + 1 < |s| ==> s[n] != s[n + 1];
      }
      SizeBoundIsTight(s[n..]);
    }
  }

  // ---- The format

  lemma DecodeHead(c: seq<byte>, room: nat)
    requires c != [] && room > 0
    ensures Decode(c, room) == Emits(c, room) + Decode(c[Takes(c, room)..], room - |Emits(c, room)|)
  {
  }

  /** Section 9 of TIFF Revision 6.0: n - 1 announces n literal bytes. */
  lemma LiteralMeansTiff(literal: seq<byte>, rest: seq<byte>, room: nat)
    requires 1 <= |literal| <= 128 && |literal| <= room
    ensures Decode([|literal| - 1] + literal + rest, room) == literal + Decode(rest, room - |literal|)
  {
    hide Decode;
    var n := |literal|;
    var c := [n - 1] + literal + rest;
    DecodeHead(c, room);
    assert |c| == 1 + n + |rest| && c[0] == n - 1 && Min(c[0] + 1, Min(|c| - 1, room)) == n;
    assert c[1..1 + n] == literal && c[1 + n..] == rest;
    hide *;
  }

  /** 257 - n announces a byte n times over. */
  lemma RunMeansTiff(b: byte, n: nat, rest: seq<byte>, room: nat)
    requires 2 <= n <= 128 && n <= room
    ensures Decode([257 - n, b] + rest, room) == Repeat(b, n) + Decode(rest, room - n)
  {
    hide Decode;
    var c := [257 - n, b] + rest;
    DecodeHead(c, room);
    assert |c| == 2 + |rest| && c[0] == 257 - n && c[1] == b && c[2..] == rest;
    assert Emits(c, room) == Repeat(b, n) && Takes(c, room) == 2;
    hide *;
  }

  /** And 128 nothing. */
  lemma NoOpMeansTiff(rest: seq<byte>, room: nat)
    ensures Decode([128] + rest, room) == Decode(rest, room)
  {
    assert ([128] + rest)[1..] == rest;
  }
}
