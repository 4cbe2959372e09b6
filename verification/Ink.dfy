/** The six Spectra 6 inks: their sRGB anchors and controller codes (spectra6.go). */
module Ink {
  import opened Bytes

  /** An opaque 8-bit colour. */
  datatype Color = Color(r: byte, g: byte, b: byte)

  const INKS: nat := 6

  // The controller's colour codes.
  const CODE_BLACK: byte := 0
  const CODE_WHITE: byte := 1
  const CODE_YELLOW: byte := 2
  const CODE_RED: byte := 3
  const CODE_BLUE: byte := 5
  const CODE_GREEN: byte := 6

  function PaletteColor(i: nat): Color
    requires i < INKS
  {
    if i == 0 then Color(0x00, 0x00, 0x00)
    else if i == 1 then Color(0xFF, 0xFF, 0xFF)
    else if i == 2 then Color(0xE0, 0xC8, 0x10)
    else if i == 3 then Color(0xC0, 0x20, 0x20)
    else if i == 4 then Color(0x20, 0x30, 0xA0)
    else Color(0x20, 0x80, 0x40)
  }

  /** codeFor: the nibble sent to the panel; an index outside the palette is sent as white. */
  function CodeFor(palIdx: byte): (code: byte)
    ensures code < 16
    ensures palIdx >= INKS ==> code == CODE_WHITE
  {
    if palIdx == 0 then CODE_BLACK
    else if palIdx == 1 then CODE_WHITE
    else if palIdx == 2 then CODE_YELLOW
    else if palIdx == 3 then CODE_RED
    else if palIdx == 4 then CODE_BLUE
    else if palIdx == 5 then CODE_GREEN
    else CODE_WHITE
  }

  /** Different inks have different codes, so a packed nibble says which ink it came from. */
  lemma CodesAreDistinct(a: byte, b: byte)
    requires a < INKS && b < INKS
    ensures CodeFor(a) == CodeFor(b) <==> a == b
  {
  }
}
