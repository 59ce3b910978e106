/** The encodings behind the widths of code points: what they write can be read back, and no shorter form can. */
module Encodings {
  import opened Ordering
  import opened Texts

  /** The bytes of a code point (section 3 of RFC 3629). */
  function Utf8(c: char): seq<int> {
    var u := c as int;
    if u < 0x80 then [u]
    else if u < 0x800 then [0xC0 + u / 0x40, 0x80 + u % 0x40]
    else if u < 0x1_0000 then [0xE0 + u / 0x1000, 0x80 + u / 0x40 % 0x40, 0x80 + u % 0x40]
    else [0xF0 + u / 0x4_0000, 0x80 + u / 0x1000 % 0x40, 0x80 + u / 0x40 % 0x40, 0x80 + u % 0x40]
  }

  predicate Continues(b: int) { 0x80 <= b < 0xC0 }

  /** Reading by the lead byte: it tells how many bytes follow, and the rest must continue it. */
  function FromUtf8(bytes: seq<int>): Option<int> {
    if bytes == [] || exists i :: 1 <= i < |bytes| && !Continues(bytes[i]) then None
    else if |bytes| == 1 && 0 <= bytes[0] < 0x80 then Some(bytes[0])
    else if |bytes| == 2 && 0xC0 <= bytes[0] < 0xE0 then Some((bytes[0] - 0xC0) * 0x40 + bytes[1] - 0x80)
    else if |bytes| == 3 && 0xE0 <= bytes[0] < 0xF0
    then Some((bytes[0] - 0xE0) * 0x1000 + (bytes[1] - 0x80) * 0x40 + bytes[2] - 0x80)
    else if |bytes| == 4 && 0xF0 <= bytes[0] < 0xF8
    then Some((bytes[0] - 0xF0) * 0x4_0000 + (bytes[1] - 0x80) * 0x1000 + (bytes[2] - 0x80) * 0x40 + bytes[3] - 0x80)
    else None
  }

  /** The code units of a code point (section 2 of RFC 2781). */
  function Utf16(c: char): seq<int> {
    var u := c as int;
    if u < 0x1_0000 then [u] else [0xD800 + (u - 0x1_0000) / 0x400, 0xDC00 + (u - 0x1_0000) % 0x400]
  }

  /** A unit outside the surrogates is its code point, and a pair of surrogates is one beyond the units. */
  function FromUtf16(units: seq<int>): Option<int> {
    if |units| == 1 && (0 <= units[0] < 0xD800 || 0xE000 <= units[0] < 0x1_0000) then Some(units[0])
    else if |units| == 2 && 0xD800 <= units[0] < 0xDC00 <= units[1] < 0xE000
    then Some(0x1_0000 + (units[0] - 0xD800) * 0x400 + units[1] - 0xDC00)
    else None
  }

  /** The width in bytes is that of an encoding that reads back to the code point, and of no longer than need be. */
  lemma Utf8Width(c: char)
    ensures |Utf8(c)| == Utf8Len(c) && FromUtf8(Utf8(c)) == Some(c as int)
    ensures forall bytes | FromUtf8(bytes) == Some(c as int) :: |bytes| >= Utf8Len(c)
  {
    var u := c as int;
    assert u == u / 0x40 * 0x40 + u % 0x40;
    assert u / 0x40 == u / 0x1000 * 0x40 + u / 0x40 % 0x40;
    assert u / 0x1000 == u / 0x4_0000 * 0x40 + u / 0x1000 % 0x40;
    forall bytes | FromUtf8(bytes) == Some(u) ensures |bytes| >= Utf8Len(c) {
      assert forall i | 1 <= i < |bytes| :: Continues(bytes[i]);
    }
  }

  /** The width in code units likewise. */
  lemma Utf16Width(c: char)
    ensures |Utf16(c)| == Utf16Len(c) && FromUtf16(Utf16(c)) == Some(c as int)
    ensures forall units | FromUtf16(units) == Some(c as int) :: |units| == Utf16Len(c)
  {
    var u := c as int - 0x1_0000;
    assert u == u / 0x400 * 0x400 + u % 0x400;
  }
}
