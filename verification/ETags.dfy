/** The ETag both sides compare: a CRC as eight lower-case hex digits in double quotes. */
module ETags {
  import opened Bytes

  function HexDigit(d: nat): char
    requires d < 16
  {
    "0123456789abcdef"[d]
  }

  lemma HexDigitsDiffer(a: nat, b: nat)
    requires a < 16 && b < 16
    ensures HexDigit(a) == HexDigit(b) <==> a == b
  {
  }

  /** The low n hex digits of v, most significant first: %0nx for values that fit. */
  function Hex(v: nat, n: nat): (s: string)
    ensures |s| == n
  {
    if n == 0 then "" else Hex(v / 16, n - 1) + [HexDigit(v % 16)]
  }

  function Power16(n: nat): nat { if n == 0 then 1 else 16 * Power16(n - 1) }

  /** Values of at most n digits have different digits. */
  lemma {:induction false} HexIsInjective(a: nat, b: nat, n: nat)
    requires a < Power16(n) && b < Power16(n)
    ensures Hex(a, n) == Hex(b, n) <==> a == b
    decreases n
  {
    if n > 0 && Hex(a, n) == Hex(b, n) {
      HexIsInjective(a / 16, b / 16, n - 1);
      HexDigitsDiffer(a % 16, b % 16);
      assert Hex(a, n)[..n - 1] == Hex(a / 16, n - 1) && Hex(b, n)[..n - 1] == Hex(b / 16, n - 1);
      assert Hex(a, n)[n - 1] == HexDigit(a % 16) && Hex(b, n)[n - 1] == HexDigit(b % 16);
    }
  }

  function ETag(crc: uint32): (s: string)
    ensures s != ""
  {
    "\"" + Hex(crc, 8) + "\""
  }

  /** Comparing ETags as strings is comparing the CRCs. */
  lemma ETagsCompareCrcs(a: uint32, b: uint32)
    ensures ETag(a) == ETag(b) <==> a == b
  {
    assert Power16(8) == 0x1_0000_0000;
    HexIsInjective(a, b, 8);
    assert ETag(a)[1..9] == Hex(a, 8) && ETag(b)[1..9] == Hex(b, 8);
  }

  /** The value of a lower-case hex digit. */
  function DigitValue(c: char): int {
    if '0' <= c <= '9' then c as int - '0' as int
    else if 'a' <= c <= 'f' then c as int - 'a' as int + 10
    else -1
  }

  /** The number lower-case hex digits spell; -1 if one of them is none. */
  function Spelled(s: string): int {
    if s == [] then 0
    else
      var high, low := Spelled(s[..|s| - 1]), DigitValue(s[|s| - 1]);
      if high < 0 || low < 0 then -1 else 16 * high + low
  }

  lemma {:induction false} HexSpells(v: nat, n: nat)
    requires v < Power16(n)
    ensures Spelled(Hex(v, n)) == v
  {
    if n > 0 {
      HexSpells(v / 16, n - 1);
      assert Hex(v, n)[..n - 1] == Hex(v / 16, n - 1) && Hex(v, n)[n - 1] == HexDigit(v % 16);
    }
  }

  /** An ETag is eight lower-case hex digits in quotes that spell the hash: what the device itself would send. */
  lemma ETagSpells(crc: uint32)
    ensures var s := ETag(crc);
            |s| == 10 && s[0] == '"' && s[9] == '"' && Spelled(s[1..9]) == crc
  {
    assert Power16(8) == 0x1_0000_0000;
    HexSpells(crc, 8);
    assert ETag(crc)[1..9] == Hex(crc, 8);
  }
}
