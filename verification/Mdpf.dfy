/** MDPF v1 on the wire: the broker's Encode, and the firmware's header check, body slice and decode. */
module Mdpf {
  import opened Arith
  import opened Bytes
  import opened Wrappers
  import opened Frame
  import PackBits
  import PackBitsTheorems

  const HEADER_SIZE: nat := 32
  const COMPRESSED: uint16 := 1
  const FULL_REFRESH: uint16 := 2
  const VERSION: uint16 := 1
  const BPP: byte := 4
  const MAGIC: seq<byte> := [0x4D, 0x44, 0x50, 0x46]

  /** protocol.hpp: struct Header, without its two reserved fields. */
  datatype Header = Header(magic: seq<byte>, version: uint16, flags: uint16, width: uint16, height: uint16,
                           bpp: byte, payloadLen: uint32, rawLen: uint32, nextWakeS: uint32, crc: uint32)

  /** payload.go: Payload. */
  datatype Payload = Payload(bytes: seq<byte>, crc32: uint32, nextWakeS: uint32, compressed: bool)

  // ---- The broker (payload.go)

  function FirstHalf(h: Header): (r: seq<byte>)
    requires |h.magic| == 4
    ensures |r| == 16
  {
    h.magic + Le16(h.version) + Le16(h.flags) + Le16(h.width) + Le16(h.height) + [h.bpp, 0, 0, 0]
  }

  function SecondHalf(h: Header): (r: seq<byte>)
    ensures |r| == 16
  {
    Le32(h.payloadLen) + Le32(h.rawLen) + Le32(h.nextWakeS) + Le32(h.crc)
  }

  function HeaderBytes(h: Header): (r: seq<byte>)
    requires |h.magic| == 4
    ensures |r| == HEADER_SIZE
  {
    FirstHalf(h) + SecondHalf(h)
  }

  /** PackBits must make the frame smaller, or the frame goes out raw. */
  predicate Compresses(packed: seq<byte>) { |PackBits.Encode(packed)| < |packed| }

  function BodyOf(packed: seq<byte>): seq<byte> {
    if Compresses(packed) then PackBits.Encode(packed) else packed
  }

  /** The header Encode writes; Go's conversions to uint16 and uint32 keep the low bits. */
  function HeaderOf(
    packed: seq<byte>, width: int, height: int, nextWakeS: uint32, fullRefresh: bool, crc: uint32): Header {
    Header(MAGIC, VERSION,
           (if Compresses(packed) then COMPRESSED else 0) + (if fullRefresh then FULL_REFRESH else 0),
           width % 0x1_0000, height % 0x1_0000, BPP,
           |BodyOf(packed)| % 0x1_0000_0000, |packed| % 0x1_0000_0000, nextWakeS, crc)
  }

  function Wire(
    packed: seq<byte>, width: int, height: int, nextWakeS: uint32, fullRefresh: bool, crc: uint32): seq<byte> {
    HeaderBytes(HeaderOf(packed, width, height, nextWakeS, fullRefresh, crc)) + BodyOf(packed)
  }

  /** payload.go: Encode fills a zeroed buffer field by field; crc stands for CRC-32. */
  method Encode(
    packed: seq<byte>, width: int, height: int, nextWakeS: uint32, fullRefresh: bool, crc: seq<byte> -> uint32)
    returns (p: Payload)
    ensures p == Payload(Wire(packed, width, height, nextWakeS, fullRefresh, crc(packed)),
                         crc(packed), nextWakeS, Compresses(packed))
  {
    var sum := crc(packed);
    var body := PackBits.PackBits(packed);
    var compressed := true;
    if |body| >= |packed| {
      body := packed;
      compressed := false;
    }
    var flags := 0;
    if compressed {
      flags := flags + COMPRESSED;
    }
    if fullRefresh {
      flags := flags + FULL_REFRESH;
    }
    ghost var h := HeaderOf(packed, width, height, nextWakeS, fullRefresh, sum);
    var buf := new byte[HEADER_SIZE + |body|](_ => 0);
    EncodeFirstHalf(buf, flags, width % 0x1_0000, height % 0x1_0000, h);
    EncodeSecondHalf(buf, |body| % 0x1_0000_0000, |packed| % 0x1_0000_0000, nextWakeS, sum);
    assert buf[..HEADER_SIZE] == HeaderBytes(h);
    Append(buf, HEADER_SIZE, body);
    p := Payload(buf[..], sum, nextWakeS, compressed);
    assert buf[..] == buf[..HEADER_SIZE + |body|];
  }

  method EncodeFirstHalf(buf: array<byte>, flags: uint16, width: uint16, height: uint16, ghost h: Header)
    requires buf.Length >= HEADER_SIZE && forall i :: 0 <= i < HEADER_SIZE ==> buf[i] == 0
    requires h.magic == MAGIC && h.version == VERSION && h.bpp == BPP
    requires h.flags == flags && h.width == width && h.height == height
    modifies buf
    ensures buf[..16] == FirstHalf(h)
  {
    Append(buf, 0, MAGIC);
    Append(buf, 4, Le16(VERSION));
    Append(buf, 6, Le16(flags));
    Append(buf, 8, Le16(width));
    Append(buf, 10, Le16(height));
    buf[12] := BPP;
    assert buf[..16] == buf[..12] + [BPP, 0, 0, 0];
  }

  method EncodeSecondHalf(buf: array<byte>, bodyLen: uint32, rawLen: uint32, nextWakeS: uint32, crc: uint32)
    requires buf.Length >= HEADER_SIZE
    modifies buf
    ensures buf[..HEADER_SIZE] == old(buf[..16]) + (Le32(bodyLen) + Le32(rawLen) + Le32(nextWakeS) + Le32(crc))
  {
    ghost var first := buf[..16];
    Append(buf, 16, Le32(bodyLen));
    Append(buf, 20, Le32(rawLen));
    Append(buf, 24, Le32(nextWakeS));
    Append(buf, 28, Le32(crc));
    assert buf[..32] == first + Le32(bodyLen) + Le32(rawLen) + Le32(nextWakeS) + Le32(crc);
  }

  /**
   * A wire image byte by byte: "MDPF", version 1, the flags, width, height, 4 bits a pixel, the body's length, the
   * frame's, the wake and the hash, then the body.
   */
  ghost predicate IsLaidOut(
    wire: seq<byte>, flags: nat, width: nat, height: nat, rawLen: nat, nextWakeS: nat, crc: nat, body: seq<byte>)
  {
    && |wire| == 32 + |body| && wire[32..] == body
    && wire[..4] == [0x4D, 0x44, 0x50, 0x46] && Says16(wire, 4, 1) && Says16(wire, 6, flags)
    && Says16(wire, 8, width) && Says16(wire, 10, height) && wire[12..16] == [4, 0, 0, 0]
    && Says32(wire, 16, |body|) && Says32(wire, 20, rawLen) && Says32(wire, 24, nextWakeS) && Says32(wire, 28, crc)
  }

  lemma HeaderLayout(h: Header, body: seq<byte>)
    requires h.magic == MAGIC && h.version == VERSION && h.bpp == BPP && h.payloadLen == |body|
    ensures IsLaidOut(HeaderBytes(h) + body, h.flags, h.width, h.height, h.rawLen, h.nextWakeS, h.crc, body)
  {
    hide FirstHalf, SecondHalf, Says16, Says32;
    FirstHalfLayout(h, SecondHalf(h) + body);
    SecondHalfLayout(h, FirstHalf(h), body);
    assert FirstHalf(h) + (SecondHalf(h) + body) == HeaderBytes(h) + body == FirstHalf(h) + SecondHalf(h) + body;
  }

  /**
   * Bit 0 of the flags says that the body is the compressed frame, which it is if that is smaller; bit 1 asks for a
   * full refresh.
   */
  lemma WireLayout(
    packed: seq<byte>, width: uint16, height: uint16, nextWakeS: uint32, fullRefresh: bool, crc: uint32)
    requires |packed| < 0x1_0000_0000
    ensures var shrunk := |PackBits.Encode(packed)| < |packed|;
            IsLaidOut(Wire(packed, width, height, nextWakeS, fullRefresh, crc),
                      (if shrunk then 1 else 0) + (if fullRefresh then 2 else 0),
                      width, height, |packed|, nextWakeS, crc,
                      if shrunk then PackBits.Encode(packed) else packed)
  {
    hide HeaderBytes, PackBits.Encode, IsLaidOut;
    var h := HeaderOf(packed, width, height, nextWakeS, fullRefresh, crc);
    assert |BodyOf(packed)| <= |packed|;
    assert h.width == width && h.height == height && h.payloadLen == |BodyOf(packed)| && h.rawLen == |packed|;
    HeaderLayout(h, BodyOf(packed));
  }

  lemma FirstHalfLayout(h: Header, rest: seq<byte>)
    requires |h.magic| == 4
    ensures var s := FirstHalf(h) + rest;
            && s[..4] == h.magic && Says16(s, 4, h.version) && Says16(s, 6, h.flags)
            && Says16(s, 8, h.width) && Says16(s, 10, h.height) && s[12..16] == [h.bpp, 0, 0, 0]
  {
    var s := FirstHalf(h) + rest;
    Le16Says(s, 4, h.version);
    Le16Says(s, 6, h.flags);
    Le16Says(s, 8, h.width);
    Le16Says(s, 10, h.height);
  }

  lemma SecondHalfLayout(h: Header, first: seq<byte>, rest: seq<byte>)
    requires |first| == 16
    ensures var s := first + SecondHalf(h) + rest;
            && Says32(s, 16, h.payloadLen) && Says32(s, 20, h.rawLen)
            && Says32(s, 24, h.nextWakeS) && Says32(s, 28, h.crc)
  {
    var s := first + SecondHalf(h) + rest;
    assert s[16..20] == Le32(h.payloadLen) && s[20..24] == Le32(h.rawLen);
    assert s[24..28] == Le32(h.nextWakeS) && s[28..32] == Le32(h.crc);
    Le32Says(s, 16, h.payloadLen);
    Le32Says(s, 20, h.rawLen);
    Le32Says(s, 24, h.nextWakeS);
    Le32Says(s, 28, h.crc);
  }

  // ---- The firmware (protocol.hpp, net_client.cpp, epd_spectra6.cpp)

  /** The packed struct laid over the buffer. */
  function ReadHeader(buf: seq<byte>): Header
    requires |buf| >= HEADER_SIZE
  {
    Header(buf[..4], GetU16(buf, 4), GetU16(buf, 6), GetU16(buf, 8), GetU16(buf, 10), buf[12],
           GetU32(buf, 16), GetU32(buf, 20), GetU32(buf, 24), GetU32(buf, 28))
  }

  function ParseHeader(buf: seq<byte>): (r: Option<Header>)
    ensures r.Some? <==> |buf| >= HEADER_SIZE && buf[..4] == MAGIC && GetU16(buf, 4) == VERSION && buf[12] == BPP
  {
    if |buf| < HEADER_SIZE then None
    else
      var h := ReadHeader(buf);
      if h.magic != MAGIC || h.version != VERSION || h.bpp != BPP then None else Some(h)
  }

  /**
   * A fully read 200 response: rejected (with the wake its header named, if it had one), accepted, or a length field
   * that wraps the 32-bit size_t sum.
   */
  datatype Fetched =
    | BadPayload(embeddedWake: uint32)
    | Accepted(header: Header, body: seq<byte>)
    | LengthWraps(header: Header)

  /** The end of fetch_display: parse, check payload_len against the bytes received, slice off the body. */
  function FetchBody(buf: seq<byte>): Fetched {
    match ParseHeader(buf)
    case None => BadPayload(0)
    case Some(h) =>
      if (HEADER_SIZE + h.payloadLen) % 0x1_0000_0000 > |buf| then BadPayload(h.nextWakeS)
      else if HEADER_SIZE + h.payloadLen > |buf| then LengthWraps(h)
      else Accepted(h, buf[HEADER_SIZE..HEADER_SIZE + h.payloadLen])
  }

  /** net_client.cpp: the same on the receive buffer, with the body moved to its front. */
  method ExtractBody(buf: array<byte>) returns (f: Fetched)
    modifies buf
    ensures f == FetchBody(old(buf[..]))
    ensures f.Accepted? ==> |f.body| <= buf.Length && buf[..|f.body|] == f.body
  {
    hide GetU16, GetU32;
    var parsed := ParseHeader(buf[..]);
    if parsed.None? {
      return BadPayload(0);
    }
    var h := parsed.value;
    if (HEADER_SIZE + h.payloadLen) % 0x1_0000_0000 > buf.Length {
      return BadPayload(h.nextWakeS);
    }
    if HEADER_SIZE + h.payloadLen > buf.Length {
      return LengthWraps(h);
    }
    var body := buf[HEADER_SIZE..HEADER_SIZE + h.payloadLen];
    assert body == buf[..][HEADER_SIZE..HEADER_SIZE + h.payloadLen];
    CopyInto(buf, 0, body);
    return Accepted(h, body);
  }

  /** The wrapped case needs a payload_len in the last 32 values of its field. */
  lemma LengthCheckIsExact(buf: seq<byte>)
    requires ParseHeader(buf).Some?
    ensures FetchBody(buf).LengthWraps? <==>
            var n := ReadHeader(buf).payloadLen;
            n >= 0x1_0000_0000 - HEADER_SIZE && n - (0x1_0000_0000 - HEADER_SIZE) <= |buf| < HEADER_SIZE + n
  {
  }

  /** A bare header that claims four gigabytes but one byte passes the check. */
  lemma LengthCheckIsFooled()
    ensures var h := Header(MAGIC, VERSION, 0, 800, 480, BPP, 0xFFFF_FFFF, 192000, 0, 0);
            FetchBody(HeaderBytes(h)) == LengthWraps(h)
  {
    var h := Header(MAGIC, VERSION, 0, 800, 480, BPP, 0xFFFF_FFFF, 192000, 0, 0);
    assert HeaderBytes(h) + [] == HeaderBytes(h);
    HeaderRoundTrip(h, []);
    hide HeaderBytes, ReadHeader, ParseHeader;
  }

  predicate IsCompressed(h: Header) { h.flags % 2 == 1 }

  /** The geometry the firmware is built for; RAW_LEN is the packed size of one screen. */
  datatype Panel = Panel(width: nat, height: nat) {
    function RawLen(): nat { width * height / 2 }
  }

  const E1002 := Panel(800, 480)

  /** show, up to the point where the framebuffer is streamed: the frame, or None when it is refused. */
  function ShowFrame(panel: Panel, body: seq<byte>, h: Header): (r: Option<seq<byte>>)
    ensures r.Some? ==> |r.value| == panel.RawLen() && h.width == panel.width && h.height == panel.height
  {
    if h.width != panel.width || h.height != panel.height then None
    else
      var fb := if IsCompressed(h) then PackBits.Decode(body, panel.RawLen())
                else body[..Min(|body|, panel.RawLen())];
      if |fb| == panel.RawLen() then Some(fb) else None
  }

  /** epd_spectra6.cpp: the decode-or-copy part of show, into a framebuffer allocated for one screen. */
  method Show(panel: Panel, body: seq<byte>, h: Header) returns (shown: Option<seq<byte>>)
    ensures shown == ShowFrame(panel, body, h)
  {
    if h.width != panel.width || h.height != panel.height {
      return None;
    }
    var fb := new byte[panel.RawLen()];
    var produced;
    if IsCompressed(h) {
      produced := PackBits.PackBitsDecode(body, panel.RawLen(), fb);
    } else {
      produced := if |body| < panel.RawLen() then |body| else panel.RawLen();
      CopyInto(fb, 0, body[..produced]);
      assert fb[..produced] == body[..produced];
    }
    if produced != panel.RawLen() {
      return None;
    }
    assert fb[..] == fb[..produced];
    shown := Some(fb[..]);
  }

  // ---- Round trip

  lemma FirstHalfReads(h: Header, rest: seq<byte>)
    requires |h.magic| == 4
    ensures var s := FirstHalf(h) + rest;
            && s[..4] == h.magic && GetU16(s, 4) == h.version && GetU16(s, 6) == h.flags
            && GetU16(s, 8) == h.width && GetU16(s, 10) == h.height && s[12] == h.bpp
  {
    var s := FirstHalf(h) + rest;
    assert s[..4] == h.magic;
    ReadLe16(s, 4, h.version);
    ReadLe16(s, 6, h.flags);
    ReadLe16(s, 8, h.width);
    ReadLe16(s, 10, h.height);
  }

  lemma SecondHalfReads(h: Header, first: seq<byte>, rest: seq<byte>)
    requires |first| == 16
    ensures var s := first + SecondHalf(h) + rest;
            && GetU32(s, 16) == h.payloadLen && GetU32(s, 20) == h.rawLen
            && GetU32(s, 24) == h.nextWakeS && GetU32(s, 28) == h.crc
  {
    var s := first + SecondHalf(h) + rest;
    ReadLe32(s, 16, h.payloadLen);
    ReadLe32(s, 20, h.rawLen);
    ReadLe32(s, 24, h.nextWakeS);
    ReadLe32(s, 28, h.crc);
  }

  /** Every field of the header survives the little-endian wire, whatever body follows. */
  lemma HeaderRoundTrip(h: Header, body: seq<byte>)
    requires |h.magic| == 4
    ensures ReadHeader(HeaderBytes(h) + body) == h
    ensures h.magic == MAGIC && h.version == VERSION && h.bpp == BPP ==> ParseHeader(HeaderBytes(h) + body) == Some(h)
  {
    var s := HeaderBytes(h) + body;
    assert s == FirstHalf(h) + (SecondHalf(h) + body);
    FirstHalfReads(h, SecondHalf(h) + body);
    SecondHalfReads(h, FirstHalf(h), body);
  }

  /** The firmware accepts what the broker sent, with the header and the body the broker meant. */
  lemma FetchesWhatWasSent(
    packed: seq<byte>, width: int, height: int, nextWakeS: uint32, fullRefresh: bool, crc: uint32)
    requires |packed| < 0x1_0000_0000 - HEADER_SIZE
    ensures FetchBody(Wire(packed, width, height, nextWakeS, fullRefresh, crc))
         == Accepted(HeaderOf(packed, width, height, nextWakeS, fullRefresh, crc), BodyOf(packed))
  {
    hide PackBits.Encode, HeaderBytes, ReadHeader, ParseHeader;
    var h, body := HeaderOf(packed, width, height, nextWakeS, fullRefresh, crc), BodyOf(packed);
    var buf := HeaderBytes(h) + body;
    HeaderRoundTrip(h, body);
    assert buf[HEADER_SIZE..HEADER_SIZE + h.payloadLen] == body;
  }

  /** A response cut short is refused, and if its header is whole the wake it names is still obeyed. */
  lemma CutResponseIsRefused(
    packed: seq<byte>, width: int, height: int, nextWakeS: uint32, fullRefresh: bool, crc: uint32, k: nat)
    requires |packed| < 0x1_0000_0000 - HEADER_SIZE
    requires k < |Wire(packed, width, height, nextWakeS, fullRefresh, crc)|
    ensures FetchBody(Wire(packed, width, height, nextWakeS, fullRefresh, crc)[..k])
         == BadPayload(if k < 32 then 0 else nextWakeS)
  {
    var h, body := HeaderOf(packed, width, height, nextWakeS, fullRefresh, crc), BodyOf(packed);
    hide PackBits.Encode, HeaderBytes, ReadHeader, ParseHeader;
    assert |body| <= |packed| && h.payloadLen == |body|;
    if k >= 32 {
      assert (HeaderBytes(h) + body)[..k] == HeaderBytes(h) + body[..k - 32];
      HeaderRoundTrip(h, body[..k - 32]);
    }
    hide HeaderOf, BodyOf;
  }

  /** A frame of the panel's geometry is shown exactly, compressed or raw. */
  lemma ShowsWhatWasSent(panel: Panel, packed: seq<byte>, nextWakeS: uint32, fullRefresh: bool, crc: uint32)
    requires |packed| == panel.RawLen() && panel.width < 0x1_0000 && panel.height < 0x1_0000
    ensures var h := HeaderOf(packed, panel.width, panel.height, nextWakeS, fullRefresh, crc);
            ShowFrame(panel, BodyOf(packed), h) == Some(packed)
  {
    hide PackBits.Encode, PackBits.Decode;
    if Compresses(packed) {
      PackBitsTheorems.RoundTrip(packed, panel.RawLen());
    } else {
      assert packed[..panel.RawLen()] == packed;
    }
  }

  /** A body cut short anywhere is refused, on both paths. */
  lemma ShowRefusesTruncation(panel: Panel, packed: seq<byte>, k: nat, h: Header)
    requires |packed| == panel.RawLen() && k < |BodyOf(packed)|
    requires IsCompressed(h) == Compresses(packed)
    ensures ShowFrame(panel, BodyOf(packed)[..k], h) == None
  {
    hide PackBits.Encode, PackBits.Decode;
    if Compresses(packed) {
      PackBitsTheorems.TruncationIsCaught(packed, k, panel.RawLen());
    }
  }

  /** Everything the device does with a 200 response short of driving the panel. */
  function Delivered(panel: Panel, response: seq<byte>): Option<seq<byte>> {
    match FetchBody(response)
    case Accepted(h, body) => ShowFrame(panel, body, h)
    case _ => None
  }

  /** What the broker packed is what the device streams, and the header's hash travels with it. */
  lemma DeliversWhatWasSent(panel: Panel, packed: seq<byte>, nextWakeS: uint32, fullRefresh: bool, crc: uint32)
    requires |packed| == panel.RawLen() && panel.width < 0x1_0000 && panel.height < 0x1_0000
    ensures var wire := Wire(packed, panel.width, panel.height, nextWakeS, fullRefresh, crc);
            && Delivered(panel, wire) == Some(packed)
            && FetchBody(wire).header == HeaderOf(packed, panel.width, panel.height, nextWakeS, fullRefresh, crc)
  {
    hide Wire, HeaderOf, BodyOf, FetchBody, ShowFrame;
    AreaBound(panel.width, panel.height);
    FetchesWhatWasSent(packed, panel.width, panel.height, nextWakeS, fullRefresh, crc);
    ShowsWhatWasSent(panel, packed, nextWakeS, fullRefresh, crc);
  }

  /** Image to screen: every pixel's code arrives in its own nibble of the frame the panel streams. */
  lemma Pipeline(panel: Panel, img: Paletted, nextWakeS: uint32, fullRefresh: bool, crc: uint32, x: nat, y: nat)
    requires img.Packable() && img.w == panel.width < 0x1_0000 && img.h == panel.height < 0x1_0000
    ensures var screen := Delivered(panel, Wire(Packed(img), img.w, img.h, nextWakeS, fullRefresh, crc));
            && screen.Some? && |screen.value| == panel.RawLen()
            && (x < img.w && y < img.h ==> HoldsPixel(screen.value, img, x, y))
  {
    hide Wire, Delivered, Packed, HoldsPixel;
    DeliversWhatWasSent(panel, Packed(img), nextWakeS, fullRefresh, crc);
    if x < img.w && y < img.h {
      PackedPixel(img, x, y);
    }
  }

  lemma AreaBound(w: nat, h: nat)
    requires w < 0x1_0000 && h < 0x1_0000
    ensures w * h / 2 < 0x1_0000_0000 - HEADER_SIZE
  {
    MulMono(w, 0xFFFF, h);
  }
}
