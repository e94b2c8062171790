/** The UTF-8 form of a code point (section 3 of RFC 3629), as the writer computes it for any 32-bit value. */
module Utf8Bytes {
  import opened Bytes

  /** `utf8_writer::any`; beyond U+10FFFF the first byte keeps only the low bits it has room for. */
  function Encoded(ch: nat): (r: bytes)
    ensures 1 <= |r| <= 4
  {
    if ch < 0x80 then [ch]
    else if ch < 0x800 then [0xC0 + ch / 0x40, 0x80 + ch % 0x40]
    else if ch < 0x10000 then [0xE0 + ch / 0x1000, 0x80 + ch / 0x40 % 0x40, 0x80 + ch % 0x40]
    else [0xF0 + ch / 0x40000 % 0x10, 0x80 + ch / 0x1000 % 0x40, 0x80 + ch / 0x40 % 0x40, 0x80 + ch % 0x40]
  }
}
