/**
 * The colour text `export_svg` writes: `color_hex`, the fill of a colour's
 * group, and the background fill, which is the first colour named
 * "charcoal" in any letter case, else black.
 */
module SvgColors {
  import opened Wrappers
  import opened Text
  import opened HexColor
  import opened PaletteLoader

  const Black: string := "#000000"

  /** The position of the first entry whose name `wanted` accepts, or `|palette|`. */
  function FirstNamed(palette: Palette, wanted: string -> bool): (k: nat)
    ensures k <= |palette|
    ensures k < |palette| ==> wanted(palette[k].name)
    ensures forall j :: 0 <= j < k ==> !wanted(palette[j].name)
  {
    if palette == [] then 0
    else if wanted(palette[0].name) then 0
    else 1 + FirstNamed(palette[1..], wanted)
  }

  /** `#RRGGBB` of the first entry `wanted` accepts, or black. */
  function FillOf(palette: Palette, wanted: string -> bool): (fill: string)
    requires AllInRange(palette)
    ensures |fill| == 7 && fill[0] == '#'
    ensures (forall k :: 0 <= k < |palette| ==> !wanted(palette[k].name)) ==> fill == Black
  {
    var k := FirstNamed(palette, wanted);
    if k < |palette| then FormatHex(palette[k].color) else Black
  }

  /** What `color_hex(name)` returns. */
  function ColorFill(palette: Palette, name: string): string
    requires AllInRange(palette)
  {
    FillOf(palette, n => n == name)
  }

  predicate IsCharcoal(n: string)
  {
    Lower(n) == "charcoal"
  }

  /** The background fill `export_svg` settles on. */
  function Background(palette: Palette): string
    requires AllInRange(palette)
  {
    FillOf(palette, IsCharcoal)
  }

  /** `color_hex`: the loop over the palette that returns on the first equal name. */
  method ColorHex(palette: Palette, name: string) returns (hex: string)
    requires AllInRange(palette)
    ensures hex == ColorFill(palette, name)
  {
    for i := 0 to |palette|
      invariant forall j :: 0 <= j < i ==> palette[j].name != name
    {
      if palette[i].name == name {
        assert FirstNamed(palette, n => n == name) == i;
        return FormatHex(palette[i].color);
      }
    }
    return Black;
  }

  /** The background search: the first `n.lower() == "charcoal"`, then `break`. */
  method BackgroundFill(palette: Palette) returns (fill: string)
    requires AllInRange(palette)
    ensures fill == Background(palette)
  {
    fill := Black;
    var i := 0;
    while i < |palette|
      invariant 0 <= i <= |palette|
      invariant forall j :: 0 <= j < i ==> !IsCharcoal(palette[j].name)
      invariant fill == Black
    {
      if Lower(palette[i].name) == "charcoal" {
        fill := FormatHex(palette[i].color);
        assert FirstNamed(palette, IsCharcoal) == i;
        break;
      }
      i := i + 1;
    }
  }

  /**
   * The fill parses back to the colour of the first entry `wanted` accepts,
   * and to black when there is none.
   */
  lemma FillOfParses(palette: Palette, wanted: string -> bool)
    requires AllInRange(palette)
    ensures var k := FirstNamed(palette, wanted);
            ParseHex(FillOf(palette, wanted)) ==
              Success(if k < |palette| then palette[k].color else Color(0, 0, 0))
  {
    var k := FirstNamed(palette, wanted);
    if k < |palette| {
      ParseFormatRoundTrip(palette[k].color);
    } else {
      BlackIsFormatted();
      ParseFormatRoundTrip(Color(0, 0, 0));
    }
  }

  /** `"#000000"` is the formatted form of (0, 0, 0). */
  lemma BlackIsFormatted()
    ensures FormatHex(Color(0, 0, 0)) == Black
  {
    assert UpperHexDigit(0) == '0';
  }

  /** A group's fill names the colour of the first palette entry with the group's name. */
  lemma ColorFillParses(palette: Palette, name: string, k: nat)
    requires AllInRange(palette)
    requires k < |palette| && palette[k].name == name
    requires forall j :: 0 <= j < k ==> palette[j].name != name
    ensures ParseHex(ColorFill(palette, name)) == Success(palette[k].color)
  {
    FillOfParses(palette, n => n == name);
    assert FirstNamed(palette, n => n == name) == k;
  }

  /** A name missing from the palette is filled black. */
  lemma UnknownNameIsBlack(palette: Palette, name: string)
    requires AllInRange(palette)
    requires forall j :: 0 <= j < |palette| ==> palette[j].name != name
    ensures ColorFill(palette, name) == Black
  {
  }

  /** Entries after the first match do not change the background. */
  lemma {:induction false} BackgroundFirstWins(palette: Palette, more: Palette)
    requires AllInRange(palette) && AllInRange(more)
    requires exists j :: 0 <= j < |palette| && IsCharcoal(palette[j].name)
    ensures AllInRange(palette + more)
    ensures Background(palette + more) == Background(palette)
  {
    var j :| 0 <= j < |palette| && IsCharcoal(palette[j].name);
    FirstNamedPrefix(palette, more, IsCharcoal, j);
  }

  lemma {:induction false} FirstNamedPrefix(palette: Palette, more: Palette, wanted: string -> bool, j: nat)
    requires j < |palette| && wanted(palette[j].name)
    ensures FirstNamed(palette + more, wanted) == FirstNamed(palette, wanted)
    ensures FirstNamed(palette, wanted) <= j
  {
    if !wanted(palette[0].name) {
      assert (palette + more)[1..] == palette[1..] + more;
      FirstNamedPrefix(palette[1..], more, wanted, j - 1);
    }
  }
}
