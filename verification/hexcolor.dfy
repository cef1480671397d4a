/**
  Colour strings of the form "#rrggbb" and their conversion to an opaque
  RGBA pixel (`hexToRgba`), together with the inverse rendering used to state
  the round trip. Each pair of hex digits is read as `parseInt(_, 16)` reads
  it: digits 0-9, a-f and A-F.
 */
module HexColor {
  import opened Pixels

  predicate IsHexDigit(c: char) {
    ('0' <= c <= '9') || ('a' <= c <= 'f') || ('A' <= c <= 'F')
  }

  /** A well-formed colour string: '#' followed by six hex digits. */
  predicate ValidHex(s: string) {
    |s| == 7 && s[0] == '#' && forall i :: 1 <= i < 7 ==> IsHexDigit(s[i])
  }

  function DigitValue(c: char): (v: nat)
    requires IsHexDigit(c)
    ensures v < 16
  {
    if '0' <= c <= '9' then c as int - '0' as int
    else if 'a' <= c <= 'f' then c as int - 'a' as int + 10
    else c as int - 'A' as int + 10
  }

  /** The lower-case digit for a value below 16. */
  function DigitChar(v: nat): (c: char)
    requires v < 16
    ensures IsHexDigit(c) && DigitValue(c) == v
    ensures !('A' <= c <= 'F')
  {
    if v < 10 then ('0' as int + v) as char else ('a' as int + v - 10) as char
  }

  /** `parseInt` of a two-digit hex string. */
  function ParseByte(hi: char, lo: char): byte
    requires IsHexDigit(hi) && IsHexDigit(lo)
  {
    16 * DigitValue(hi) + DigitValue(lo)
  }

  /** `hexToRgba`: the channels named by the three digit pairs, always fully opaque. */
  function HexToRgba(s: string): (c: Color)
    requires ValidHex(s)
    ensures c.a == 255
    ensures c.r / 16 == DigitValue(s[1]) && c.r % 16 == DigitValue(s[2])
    ensures c.g / 16 == DigitValue(s[3]) && c.g % 16 == DigitValue(s[4])
    ensures c.b / 16 == DigitValue(s[5]) && c.b % 16 == DigitValue(s[6])
  {
    Color(ParseByte(s[1], s[2]), ParseByte(s[3], s[4]), ParseByte(s[5], s[6]), 255)
  }

  /** The lower-case "#rrggbb" string of a colour's red, green and blue channels. */
  function ToHex(c: Color): (s: string)
    ensures ValidHex(s)
  {
    ['#', DigitChar(c.r / 16), DigitChar(c.r % 16),
          DigitChar(c.g / 16), DigitChar(c.g % 16),
          DigitChar(c.b / 16), DigitChar(c.b % 16)]
  }

  predicate IsLowerHex(s: string) {
    ValidHex(s) && forall i :: 1 <= i < 7 ==> !('A' <= s[i] <= 'F')
  }

  /** Parsing the rendering of a colour gives back its channels, made opaque. */
  lemma ParseOfRender(c: Color)
    ensures HexToRgba(ToHex(c)) == Color(c.r, c.g, c.b, 255)
  {
  }

  /** Rendering a parsed lower-case colour string reproduces the string. */
  lemma RenderOfParse(s: string)
    requires IsLowerHex(s)
    ensures ToHex(HexToRgba(s)) == s
  {
  }
}
