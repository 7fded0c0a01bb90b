/**
 * RGB colours and their `#RRGGBB` text form: the palette parser `_parse_hex`
 * and the formatter `"#" + "".join(f"{v:02X}" ...)` used for SVG fills.
 */
module HexColor {
  import opened Wrappers
  import opened Text

  datatype Color = Color(r: int, g: int, b: int)

  /** The two ways palette loading fails; both are `ValueError`s. */
  datatype PaletteError =
    | InvalidHex(text: string)   // the colour text, after trimming, is not six hex digits
    | EmptyPalette                // nothing is left after loading and filtering

  predicate InRange(c: Color)
  {
    0 <= c.r <= 255 && 0 <= c.g <= 255 && 0 <= c.b <= 255
  }

  predicate IsHash(c: char)
  {
    c == '#'
  }

  /** The text `_parse_hex` inspects: whitespace trimmed, then every leading `#` removed. */
  function Trimmed(s: string): (t: string)
    ensures t != [] ==> t[0] != '#'
  {
    LStripSpec(Trim(s), IsHash);
    LStrip(Trim(s), IsHash)
  }

  predicate IsSixHex(t: string)
  {
    |t| == 6 && AllHex(t)
  }

  function HexByte(hi: char, lo: char): (v: nat)
    requires IsHexDigit(hi) && IsHexDigit(lo)
    ensures v <= 255
  {
    16 * HexValue(hi) + HexValue(lo)
  }

  /** `_parse_hex`: three channels from six hex digits, or `InvalidHex`. */
  function ParseHex(s: string): (r: Result<Color, PaletteError>)
    ensures r.Success? <==> IsSixHex(Trimmed(s))
    ensures r.Success? ==> InRange(r.value)
    ensures r.Failure? ==> r.error == InvalidHex(Trimmed(s))
  {
    var t := Trimmed(s);
    if |t| != 6 || !AllHex(t) then Failure(InvalidHex(t))
    else Success(Color(HexByte(t[0], t[1]), HexByte(t[2], t[3]), HexByte(t[4], t[5])))
  }

  /** `f"{v:02X}"` for a channel value. */
  function Hex2(v: int): (s: string)
    requires 0 <= v <= 255
    ensures |s| == 2 && AllHex(s) && HexByte(s[0], s[1]) == v
  {
    [UpperHexDigit(v / 16), UpperHexDigit(v % 16)]
  }

  /** The `#RRGGBB` text `export_svg` writes for a palette colour. */
  function FormatHex(c: Color): (s: string)
    requires InRange(c)
    ensures |s| == 7 && s[0] == '#' && AllHex(s[1..])
    ensures forall i :: 1 <= i < 7 ==> !('a' <= s[i] <= 'f')
  {
    "#" + Hex2(c.r) + Hex2(c.g) + Hex2(c.b)
  }

  lemma TrimmedFormatted(c: Color)
    requires InRange(c)
    ensures Trimmed(FormatHex(c)) == FormatHex(c)[1..]
  {
    var s := FormatHex(c);
    assert !IsSpace(s[0]) && !IsSpace(s[6]);
    var l := LStrip(s, IsSpace);
    assert l == s;
    assert Trim(s) == s;
    assert RStrip(s, IsSpace) == s;
    assert IsHash(s[0]) && !IsHash(s[1..][0]);
    assert LStrip(s[1..], IsHash) == s[1..];
  }

  /** Formatting a colour and parsing the text gives the colour back. */
  lemma ParseFormatRoundTrip(c: Color)
    requires InRange(c)
    ensures ParseHex(FormatHex(c)) == Success(c)
  {
    TrimmedFormatted(c);
    var t := FormatHex(c)[1..];
    assert t[0..2] == Hex2(c.r) && t[2..4] == Hex2(c.g) && t[4..6] == Hex2(c.b);
  }

  /**
   * Parsing accepted text and formatting the colour gives `#` followed by
   * the same six digits, in upper case.
   */
  lemma FormatParseCanonical(s: string)
    requires ParseHex(s).Success?
    ensures var f := FormatHex(ParseHex(s).value);
            forall i :: 0 <= i < 6 ==> HexValue(f[i + 1]) == HexValue(Trimmed(s)[i])
  {
    var t := Trimmed(s);
    var c := ParseHex(s).value;
    var f := FormatHex(c);
    DigitsOfByte(t[0], t[1]);
    DigitsOfByte(t[2], t[3]);
    DigitsOfByte(t[4], t[5]);
    assert f[1..3] == Hex2(c.r) && f[3..5] == Hex2(c.g) && f[5..7] == Hex2(c.b);
  }

  lemma DigitsOfByte(hi: char, lo: char)
    requires IsHexDigit(hi) && IsHexDigit(lo)
    ensures HexByte(hi, lo) / 16 == HexValue(hi) && HexByte(hi, lo) % 16 == HexValue(lo)
  {
  }
}
