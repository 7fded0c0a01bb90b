# Pointillism pipeline core, modelled in Dafny

This project models the deterministic core of `pointillism_pipeline.py`. That
script turns an image and a filament palette into a pointillist print.

The pipeline has these stages:

- **Palette loading** (`load_palette`, `_parse_hex`). A Markdown `Name | Hex`
  table, or decoded JSON records, becomes an ordered list of named RGB colours.
  The list can be narrowed to a requested set of names. It fails with
  `ValueError` on a bad colour or when nothing is left.
- **Quantization** (`nearest_color`, `floyd_steinberg_dither`). Each pixel of
  a width x height buffer is replaced, in row-major order, by the nearest
  palette colour. The earliest of equally near colours wins. The residual
  goes 7/16, 3/16, 5/16 and 1/16 to the forward neighbours, truncated by
  `int` and clamped to [0, 255]. A grid of colour names is filled alongside.
- **Dot placement** (the coordinate loop of `export_masks`). Every cell
  becomes a dot on a hex-staggered layout, and odd rows are shifted half a
  spacing right. A dot that overhangs the right edge is dropped. Each kept
  dot is appended to its colour's list in the `coords` dictionary.
- **Names and colours in the outputs**:
  - `slugify` names SVG groups, masks and STL parts;
  - `color_hex` writes `#RRGGBB` fills;
  - the SVG background is the first colour named "charcoal" in any case,
    else black.
- **Meshes** (`_add_box`, `_add_cylinder`, `export_stl_meshes`).
  - A 12-triangle base tile.
  - One cylinder of `4 * segments` triangles per dot, grouped into one solid
    per colour.
  - Every write is recorded, together with the part-name to file-name map.

The modules, one file each:
- `Wrappers`: `Option` and `Result`.
- `Text`: Python's `strip`, `lstrip`, `lower`, `split` and `splitlines` over
  `seq<char>`.
- `HexColor`: `_parse_hex` and its `%02X` inverse.
- `PaletteLoader`: `load_palette`.
- `Quantizer`: `nearest_color` and `floyd_steinberg_dither`, as an in-place
  method on an `array2` buffer, proved against a functional scan.
- `DotGrid`: the coordinate loop.
- `Slug`: `slugify`.
- `SvgColors`: `color_hex` and the background fill.
- `MeshBuilder`: the triangle list as a class whose methods append, and the
  STL export.

Behaviour worth knowing, which the model states:
- The name filter keeps the palette's source order, not the order of the
  request.
- A requested name that matches nothing is dropped silently. Only an empty
  result is an error (`UnknownNameDropped`, `OnlyUnknownNamesFail`).
- Every file name is `slugify(name) + ".stl"`. So a colour whose slug is
  `base` is written to `base.stl` after the tile, and that file ends up
  holding dots, not the tile (`ColourNamedBaseReplacesTile`). With no such
  colour the tile survives (`TileKept`).
- Two colours with the same slug share a file, and the later write wins
  (`LastWriteWins`).

## Model

| member | source | states |
|---|---|---|
| Text.LStripSpec | pointillism_pipeline.py:35 | `lstrip` leaves a suffix that does not start with a stripped character, and it removed only stripped characters |
| Text.RStripSpec | pointillism_pipeline.py:35 | the trailing half of `strip`: it leaves a prefix that does not end with a stripped character, and it removed only stripped characters |
| Text.Strip | pointillism_pipeline.py:35 | `strip` returns no longer text, and the result neither starts nor ends with a stripped character |
| Text.StripSpec | pointillism_pipeline.py:35 | `strip` returns a slice of the text; everything before and after that slice is stripped characters |
| Text.Trim | pointillism_pipeline.py:35 | `strip()` on whitespace: no longer than the text, and neither end of a non-empty result is whitespace |
| Text.Lower | pointillism_pipeline.py:60 | `lower` keeps the length and lower-cases each character (ASCII letters) |
| Text.UpperHexDigit | pointillism_pipeline.py:254 | the `%X` digit for a value below 16 is an upper-case hex digit whose value is that value |
| Text.FindChar | pointillism_pipeline.py:62 | the first occurrence of a character, or the length when it is absent; no earlier occurrence |
| Text.SplitOn | pointillism_pipeline.py:59 | `split` on the bar character: the first part is the text before the first separator, there are at least two parts when the separator occurs, and no part contains it (with `SplitOnJoin`, the parts are exactly the pieces between separators) |
| Text.SplitLines | pointillism_pipeline.py:56 | `splitlines`: no line contains a line boundary, and the result is empty exactly for empty text (with `SplitLinesRejoin`, a final boundary does not start an empty last line) |
| Text.SplitOnJoin | pointillism_pipeline.py:59 | joining the parts of `split` with the separator gives back the text |
| Text.JoinStep | pointillism_pipeline.py:59 | the text before a separator, joined to parts that rebuild the text after it, rebuilds the text |
| Text.BreakEnd | pointillism_pipeline.py:56 | the end of a line boundary lies past its start and within the text |
| Text.SplitLinesRejoin | pointillism_pipeline.py:56 | each line followed by the boundary that ended it gives back the text; every boundary is `\r\n` or one line-break character, only the last line may end without one, a `\r` boundary is never directly followed by a `\n` boundary, and a last line without a boundary is never empty, so a final boundary does not start an empty line |
| Text.LinesStep | pointillism_pipeline.py:56 | the first line is the text up to the first boundary, and the rest are the lines after that boundary |
| Text.ThreeSlices | pointillism_pipeline.py:56 | the three slices of a text at two cut points give back the text |
| Text.LinesRejoin | pointillism_pipeline.py:56 | the lines and their boundaries, interleaved, give back the text |
| Text.EndsAreTerminators | pointillism_pipeline.py:56 | every recorded boundary is `\r\n` or a single line-break character, and only the last line may end without one |
| Text.TerminatorAt | pointillism_pipeline.py:56 | the boundary starting at a line-break character is `\r\n` or that one character |
| Text.TerminatorsCons | pointillism_pipeline.py:56 | one more terminator in front keeps every boundary a terminator, with only the last possibly empty |
| Text.CrNotBeforeLf | pointillism_pipeline.py:56 | a `\r` boundary is never directly followed by a `\n` boundary, so `\r\n` always counts as one boundary |
| Text.NoEmptyLastLine | pointillism_pipeline.py:56 | there is one boundary per line, and a last line that ends without a boundary is not empty |
| HexColor.Trimmed | pointillism_pipeline.py:35 | after `strip().lstrip("#")` the text does not start with `#` |
| HexColor.ParseHex | pointillism_pipeline.py:34-38 | parsing succeeds exactly when the trimmed text is six hex digits; every channel is in [0, 255]; otherwise the error carries the trimmed text |
| HexColor.Hex2 | pointillism_pipeline.py:254 | `%02X` of a channel is two hex digits that read back as the channel |
| HexColor.FormatHex | pointillism_pipeline.py:254 | `#` plus six upper-case hex digits |
| HexColor.TrimmedFormatted | pointillism_pipeline.py:35 | trimming formatted text removes exactly the leading `#` |
| HexColor.ParseFormatRoundTrip | pointillism_pipeline.py:251-255 | parsing the `color_hex` text of an in-range colour gives the colour back |
| HexColor.FormatParseCanonical | pointillism_pipeline.py:34-38 | formatting a parsed colour gives the same six digit values as the accepted text (in upper case) |
| PaletteLoader.FirstHexRunFromShape | pointillism_pipeline.py:66 | the first match from a position exists exactly when six hex digits occur there or later; the match is six digits, or `#` and six digits |
| PaletteLoader.FirstHexRunLeftmost | pointillism_pipeline.py:66 | the first match is the match at the leftmost position where the pattern matches, with no match at any earlier position |
| PaletteLoader.FirstHexRunExists | pointillism_pipeline.py:66-68 | `re.findall(r"#?[0-9A-Fa-f]{6}", cell)` is non-empty exactly when the cell holds six hex digits in a row |
| PaletteLoader.MatchAt | pointillism_pipeline.py:66 | the pattern matches at a position exactly when six hex digits start there, or `#` and six hex digits do; the match is that slice |
| PaletteLoader.FirstHexRun | pointillism_pipeline.py:66 | `re.findall(...)[0]`, when there is one, is six hex digits or `#` and six hex digits |
| PaletteLoader.MatchParses | pointillism_pipeline.py:66-69 | whatever the pattern matches, `_parse_hex` accepts |
| PaletteLoader.Cells | pointillism_pipeline.py:59 | one cell per bar-separated part, each the stripped part at the same position; the first cell is the stripped text before the first bar |
| PaletteLoader.HashCells | pointillism_pipeline.py:63 | every kept cell contains `#`, and none is kept exactly when no cell contains `#`; the first kept cell is the first cell with `#` |
| PaletteLoader.HashCellsAppend | pointillism_pipeline.py:63 | the comprehension keeps order: filtering two runs of cells filters each and concatenates |
| PaletteLoader.ParseRow | pointillism_pipeline.py:57-69 | a row's entry is named by the stripped text before the first bar, and its colour is in range |
| PaletteLoader.ParseRowColour | pointillism_pipeline.py:63-69 | a row's colour is `_parse_hex` of the leftmost pattern match in the first cell after the name that contains `#` |
| PaletteLoader.RowColourIsFirstRun | pointillism_pipeline.py:63-69 | a kept row has a `#` cell with a match, and its colour is what `_parse_hex` makes of the first match in the first such cell |
| PaletteLoader.FirstHashCellOf | pointillism_pipeline.py:63 | the head of the `#` cells after the name is the first cell after the name that contains `#` |
| PaletteLoader.ParseRowKeeps | pointillism_pipeline.py:57-68 | a line yields an entry exactly when it has a bar, its first cell is not `name` in any case, a later cell has `#`, and the first such cell holds six hex digits in a row |
| PaletteLoader.MarkdownEntries | pointillism_pipeline.py:56-69 | the table's entries, all in range, at most one per line |
| PaletteLoader.MarkdownEntriesLast | pointillism_pipeline.py:56-69 | one more line adds its entry at the end when it parses, and nothing otherwise |
| PaletteLoader.MarkdownEntriesAppend | pointillism_pipeline.py:56-69 | the entries of two runs of lines are those of the first run, then those of the second: line order is kept |
| PaletteLoader.MarkdownEntriesMembers | pointillism_pipeline.py:56-69 | an entry is read exactly when some line parses to it |
| PaletteLoader.MarkdownEntriesFromLines | pointillism_pipeline.py:56-69 | every entry read comes from a line that parses to it |
| PaletteLoader.MarkdownEntriesOfLine | pointillism_pipeline.py:56-69 | every line that parses contributes its entry |
| PaletteLoader.JsonEntries | pointillism_pipeline.py:51-54 | when no record fails, one in-range entry per record |
| PaletteLoader.JsonEntriesLast | pointillism_pipeline.py:51-54 | one more record: an earlier failure stays, a bad colour fails with its error, a good one appends the record's entry |
| PaletteLoader.JsonEntriesSucceeds | pointillism_pipeline.py:51-54 | the load succeeds exactly when every record's colour parses |
| PaletteLoader.JsonSuccessParsesAll | pointillism_pipeline.py:51-54 | a successful load parsed every record's colour |
| PaletteLoader.ParsesAllAppend | pointillism_pipeline.py:51-54 | records that all parse, followed by one more that parses, all parse |
| PaletteLoader.JsonAllParseSucceeds | pointillism_pipeline.py:51-54 | when every record's colour parses, the load succeeds |
| PaletteLoader.JsonEntriesValues | pointillism_pipeline.py:51-54 | on success, entry `k` is record `k`'s name with its parsed colour |
| PaletteLoader.JsonValuesAppend | pointillism_pipeline.py:51-54 | appending the last record's entry to entries that match the earlier records gives entries that match every record |
| PaletteLoader.JsonEntriesFirstError | pointillism_pipeline.py:51-54 | on failure, the error is that of the first record whose colour does not parse |
| PaletteLoader.FirstErrorInPrefix | pointillism_pipeline.py:51-54 | the first failing record among all but the last is also the first failing record among all of them |
| PaletteLoader.JsonFailureSticks | pointillism_pipeline.py:51-54 | the first record with a bad colour decides the error; the records after it do not matter |
| PaletteLoader.FilterSelected | pointillism_pipeline.py:71-73 | an entry is kept exactly when it is loaded and its lower-cased name is requested |
| PaletteLoader.FilterKeepsSourceOrder | pointillism_pipeline.py:73 | the filter distributes over concatenation, so it keeps the source order |
| PaletteLoader.FilterIgnoresUnmatched | pointillism_pipeline.py:73 | adding a name that matches no entry does not change the filter's result |
| PaletteLoader.Requested | pointillism_pipeline.py:72 | `{s.lower() for s in select}` holds the lower-cased form of every requested name and nothing else; it is empty exactly when nothing is requested |
| PaletteLoader.Parsed | pointillism_pipeline.py:47-69 | the entries before filtering: a Markdown table always parses, and parsed entries are in range; a JSON load gives one entry per record |
| PaletteLoader.Load | pointillism_pipeline.py:41-77 | a parse error is raised as it is; otherwise the result is the parsed entries, filtered to the requested names when `select` is non-empty, and it is the empty-palette error exactly when none is left; a returned palette is non-empty and in range |
| PaletteLoader.LoadMembers | pointillism_pipeline.py:71-77 | an entry is returned exactly when it was parsed and, when `select` is non-empty, its lower-cased name was requested |
| PaletteLoader.SelectedKeepsOrder | pointillism_pipeline.py:71-73 | the selection distributes over concatenation, so the returned palette keeps the source order |
| PaletteLoader.UnknownNameDropped | pointillism_pipeline.py:71-73 | a requested name that matches no entry is dropped silently |
| PaletteLoader.OnlyUnknownNamesFail | pointillism_pipeline.py:71-76 | a request that matches nothing is the empty-palette error |
| PaletteLoader.MarkdownColors | pointillism_pipeline.py:56-69 | the loop appends exactly the table's entries, in line order |
| PaletteLoader.JsonColors | pointillism_pipeline.py:51-54 | the loop returns the records' entries, or the error of the first bad record |
| PaletteLoader.LoadPalette | pointillism_pipeline.py:41-77 | `load_palette` returns or raises exactly what `Load` states: the parse error, the filtered entries in source order, or the empty-palette error when none is left |
| Quantizer.NearestIndex | pointillism_pipeline.py:91-100 | the chosen entry's squared distance is no larger than any entry's, and every earlier entry is strictly farther (first minimum wins) |
| Quantizer.NearestColor | pointillism_pipeline.py:91-100 | the loop with `best`/`best_dist` returns the entry at `NearestIndex`: a palette entry at least as near as every other |
| Quantizer.Clamp | pointillism_pipeline.py:125 | `min(255, max(0, v))` is in [0, 255], leaves in-range values alone, and saturates to 0 below and to 255 above |
| Quantizer.TruncDiv16 | pointillism_pipeline.py:125-127 | `int(n / 16)` truncates toward zero: for `n >= 0` the quotient is the floor, for `n < 0` it is the ceiling |
| Quantizer.Diffuse | pointillism_pipeline.py:125-127 | one clamped channel of `add_error` is in [0, 255]; it is the sum in sixteenths divided by 16 when that is in range, 0 below 16 sixteenths and 255 from 4096 sixteenths |
| Quantizer.AddErrorAt | pointillism_pipeline.py:122-128 | the buffer keeps its shape, is unchanged when the target is out of bounds, and the target ends in range otherwise |
| Quantizer.QuantizeCell | pointillism_pipeline.py:114-133 | one step keeps the shape of the buffer and grid, and writes the name of the nearest palette entry to the current cell |
| Quantizer.Dither | pointillism_pipeline.py:103-135 | the scan ends with a buffer and a name grid of `height` rows of `width` cells |
| Quantizer.TruncationInvisible | pointillism_pipeline.py:125-127 | after the clamp, `int`'s truncation and floor division agree; negative sums clamp to 0 |
| Quantizer.AddErrorAtEffect | pointillism_pipeline.py:122-128 | `add_error` leaves the buffer alone out of bounds, changes no other pixel, and leaves the target in range |
| Quantizer.SpreadErrorEffect | pointillism_pipeline.py:130-133 | the four `add_error` calls change no pixel at or before the current cell in row-major order, and keep channels in [0, 255] |
| Quantizer.QuantizeCellEffect | pointillism_pipeline.py:114-133 | after one step the cell holds a palette entry's name and colour, and every earlier cell is unchanged |
| Quantizer.QuantizeCellKeepsRange | pointillism_pipeline.py:114-133 | one step keeps every channel in [0, 255] |
| Quantizer.BlankNames | pointillism_pipeline.py:110 | the initial name grid has `height` rows of `width` cells |
| Quantizer.SettledStep | pointillism_pipeline.py:113-133 | one step extends the settled prefix by one cell |
| Quantizer.SettledRowEnd | pointillism_pipeline.py:112-113 | a finished row leaves the next row's start settled |
| Quantizer.ScanKeepsRange | pointillism_pipeline.py:112-133 | every prefix of the scan keeps the buffer in [0, 255] |
| Quantizer.ScanSettles | pointillism_pipeline.py:112-133 | after any prefix of the scan, every visited cell holds a palette entry's name and colour |
| Quantizer.ScanSettledStep | pointillism_pipeline.py:113-133 | the settled-prefix invariant is preserved by the inner loop body |
| Quantizer.ScanSettledRowEnd | pointillism_pipeline.py:112-113 | the settled-prefix invariant is preserved across rows |
| Quantizer.DitherCorrect | pointillism_pipeline.py:103-135 | after the dither the grid has `height` rows of `width` names, every pixel is in range, and each cell's name and pixel form a palette entry |
| Quantizer.Rows | pointillism_pipeline.py:108 | the buffer `pixels[x, y]` read as rows `g[y][x]` |
| Quantizer.SetPixel | pointillism_pipeline.py:116 | `pixels[x, y] = v` changes that one pixel |
| Quantizer.AddError | pointillism_pipeline.py:122-128 | the nested `add_error` on the buffer does what `AddErrorAt` describes |
| Quantizer.SpreadErrorAround | pointillism_pipeline.py:130-133 | the four calls, in order, on the buffer |
| Quantizer.AddShare | pointillism_pipeline.py:130-133 | one `add_error` call on the buffer extends the calls before it by the next share |
| Quantizer.SpreadErrorNext | pointillism_pipeline.py:130-133 | each `add_error` call extends the calls before it |
| Quantizer.DitherCell | pointillism_pipeline.py:114-133 | one pass of the inner loop on the buffer and the grid is `QuantizeCell` |
| Quantizer.ReachedStep | pointillism_pipeline.py:113-133 | the inner loop keeps the buffer equal to the scan's state |
| Quantizer.ReachedRowEnd | pointillism_pipeline.py:112-113 | the outer loop keeps the buffer equal to the scan's state |
| Quantizer.FloydSteinbergDither | pointillism_pipeline.py:103-135 | the buffer ends as `Dither` of its old contents, and the returned grid is `Dither`'s names |
| DotGrid.OverhangRule | pointillism_pipeline.py:156-160 | with positive spacing, a dot is dropped exactly when its row is odd and it is the last column |
| DotGrid.OverhangRuleNegative | pointillism_pipeline.py:156-160 | with negative spacing, a dot is dropped exactly when it is not in the last column, on every row |
| DotGrid.EvenRowKept | pointillism_pipeline.py:159-160 | the overhang test `x_mm > width_limit - radius` never drops a dot of an even row when the spacing is non-negative |
| DotGrid.Kept | pointillism_pipeline.py:152-161 | with positive spacing, `height*width - height/2` cells are kept |
| DotGrid.CellDots | pointillism_pipeline.py:154-161 | a cell adds at most one dot |
| DotGrid.CellCount | pointillism_pipeline.py:156-161 | a cell adds no dot when it is the last of an odd row, one otherwise |
| DotGrid.DotsOf | pointillism_pipeline.py:161 | a colour's list is no longer than the kept cells |
| DotGrid.DotsOfAppend | pointillism_pipeline.py:161 | appending a kept cell extends only the lists it names |
| DotGrid.DotsOfMember | pointillism_pipeline.py:161 | a dot is in a colour's list exactly when a kept cell of that colour has it |
| DotGrid.Keys | pointillism_pipeline.py:147 | the dictionary keys: distinct, every palette name present, and nothing else |
| DotGrid.KeysOrder | pointillism_pipeline.py:147 | the keys keep insertion order: every occurrence of a later key in the palette comes after some occurrence of each earlier key |
| DotGrid.FirstSeenBeforeExtend | pointillism_pipeline.py:147 | an order between names already seen survives one more palette entry |
| DotGrid.FirstSeenBeforeNew | pointillism_pipeline.py:147 | a name first seen in the last entry comes after every name seen before it |
| DotGrid.IndexOf | pointillism_pipeline.py:161 | `coords[name]` finds the key's position |
| DotGrid.Group | pointillism_pipeline.py:147-161 | one list per key |
| DotGrid.GroupAppend | pointillism_pipeline.py:161 | one kept cell appends its dot to its own colour's list and changes no other |
| DotGrid.DitherNamesFromPalette | pointillism_pipeline.py:117 | every name the dither writes is a key of the coordinate dictionary, so `coords[name]` never fails |
| DotGrid.EmptyLists | pointillism_pipeline.py:147 | the loop starts with an empty list for each distinct palette name, in palette order |
| DotGrid.PlacedStart | pointillism_pipeline.py:147 | the loop invariant holds before the first cell |
| DotGrid.PlaceCell | pointillism_pipeline.py:154-161 | one pass of the inner loop keeps the dictionary equal to the grouping of the cells so far |
| DotGrid.PlacedRowEnd | pointillism_pipeline.py:152-153 | the end of a row is the start of the next |
| DotGrid.PlaceRow | pointillism_pipeline.py:153-161 | the inner loop keeps the invariant across a row |
| DotGrid.PlacedEnd | pointillism_pipeline.py:152-161 | at the end the dictionary is the grouping of all kept cells |
| DotGrid.PlaceDots | pointillism_pipeline.py:145-161 | the loop returns every palette name, in palette order, with the dots of its kept cells in row-major order |
| DotGrid.KeptCellListed | pointillism_pipeline.py:152-161 | each visited cell that does not overhang is among the kept cells |
| DotGrid.DotListed | pointillism_pipeline.py:152-161 | every dot that is not dropped is in the list of the colour its cell names |
| DotGrid.KeptCount | pointillism_pipeline.py:152-161 | after `y` rows and `x` cells the kept count is `y*w - y/2` plus the cells of the current row |
| DotGrid.RowEndCount | pointillism_pipeline.py:152-161 | the count after a full row `y - 1`, whose last dot is dropped when the row is odd, is `y*w - y/2` |
| DotGrid.KeptTotal | pointillism_pipeline.py:152-161 | `height*width - height/2` dots are kept (floor division) |
| DotGrid.OccursOnce | pointillism_pipeline.py:147 | a dictionary key occurs once |
| DotGrid.TotalDotsAppend | pointillism_pipeline.py:161 | one appended dot raises the total by the number of keys with its name |
| DotGrid.TotalDotsGroup | pointillism_pipeline.py:161 | every kept cell is counted in exactly one colour's list |
| DotGrid.TotalDotsEmpty | pointillism_pipeline.py:147 | the initial dictionary holds no dots |
| DotGrid.CellNamed | pointillism_pipeline.py:154 | a cell's dot carries the cell's name |
| DotGrid.KeptNamesFromPalette | pointillism_pipeline.py:154-161 | every kept cell names a palette colour |
| DotGrid.PlacedTotal | pointillism_pipeline.py:152-161 | the dictionary holds `height*width - height/2` dots in all |
| Slug.Dashes | pointillism_pipeline.py:176 | `re.sub(r"[^a-z0-9]+", "-", s)` yields only `[a-z0-9-]` with no `--`, keeps a leading slug character, and is empty only for empty input |
| Slug.StripCollapsed | pointillism_pipeline.py:176 | `strip("-")` of such text neither starts nor ends with `-` |
| Slug.Slugify | pointillism_pipeline.py:175-176 | `slugify` returns only `[a-z0-9-]`, with no `--` and no `-` at either end |
| Slug.LowerOfSlugText | pointillism_pipeline.py:176 | lower-casing leaves slug text alone |
| Slug.DashesOfCollapsed | pointillism_pipeline.py:176 | the substitution leaves text with no run of two non-slug characters alone |
| Slug.StripOfSlug | pointillism_pipeline.py:176 | `strip("-")` leaves a slug alone |
| Slug.SlugifyIdempotent | pointillism_pipeline.py:175-176 | `slugify(slugify(n)) == slugify(n)` |
| Slug.SlugChars | pointillism_pipeline.py:176 | the `[a-z0-9]` characters of a text, no more of them than the text has |
| Slug.SlugCharsAppend | pointillism_pipeline.py:176 | the slug characters of two texts, one after the other, are those of the concatenation |
| Slug.SlugCharsOfNone | pointillism_pipeline.py:176 | text without `[a-z0-9]` has no slug characters |
| Slug.SlugCharsOfStrip | pointillism_pipeline.py:176 | stripping characters outside `[a-z0-9]` from either end keeps the slug characters |
| Slug.SlugCharsDropFront | pointillism_pipeline.py:176 | cutting off a front part without `[a-z0-9]` keeps the slug characters |
| Slug.SlugCharsDropBack | pointillism_pipeline.py:176 | cutting off a back part without `[a-z0-9]` keeps the slug characters |
| Slug.DashesKeepsSlugChars | pointillism_pipeline.py:176 | the substitution keeps every `[a-z0-9]` character, in order, and adds none |
| Slug.DashesOfRun | pointillism_pipeline.py:176 | a maximal run of characters outside `[a-z0-9]` becomes exactly one `-` |
| Slug.LStripOfRun | pointillism_pipeline.py:176 | the substitution's run ends at the first `[a-z0-9]` character |
| Slug.SlugifyKeepsSlugChars | pointillism_pipeline.py:175-176 | the slug holds exactly the `[a-z0-9]` characters of the lower-cased name, in order |
| SvgColors.FirstNamed | pointillism_pipeline.py:252-253 | the first entry the test accepts: it is accepted, and no earlier entry is |
| SvgColors.FillOf | pointillism_pipeline.py:251-262 | the fill is `#` followed by six characters, and it is black when no entry is accepted |
| SvgColors.ColorHex | pointillism_pipeline.py:251-255 | `color_hex` returns the fill of the first entry with the name, else black |
| SvgColors.BackgroundFill | pointillism_pipeline.py:257-262 | the background is the fill of the first entry named "charcoal" in any case, else black |
| SvgColors.FillOfParses | pointillism_pipeline.py:251-262 | a fill parses back to the first matching entry's colour, or to black |
| SvgColors.BlackIsFormatted | pointillism_pipeline.py:255 | `#000000` is the formatted form of (0, 0, 0) |
| SvgColors.ColorFillParses | pointillism_pipeline.py:251-255 | a group's fill parses back to the colour of the first entry with the group's name |
| SvgColors.UnknownNameIsBlack | pointillism_pipeline.py:255 | a name missing from the palette is filled black |
| SvgColors.BackgroundFirstWins | pointillism_pipeline.py:259-262 | entries after the first charcoal do not change the background |
| SvgColors.FirstNamedPrefix | pointillism_pipeline.py:259-262 | appending entries does not move the first match |
| MeshBuilder.BoxTriangles | pointillism_pipeline.py:179-200 | `_add_box` yields twelve triangles |
| MeshBuilder.BoxShape | pointillism_pipeline.py:179-200 | every box vertex is a corner from `{x0,x1}x{y0,y1}x{z0,z1}`, and every triangle lies on one face |
| MeshBuilder.SegmentTriangles | pointillism_pipeline.py:209-223 | one pass of the cylinder loop yields four triangles |
| MeshBuilder.CylinderTriangles | pointillism_pipeline.py:208-223 | `n` passes yield `4*n` triangles |
| MeshBuilder.SegmentCount | pointillism_pipeline.py:208 | `range(segments)` runs `segments` times, or not at all when `segments` is not positive |
| MeshBuilder.Cylinder | pointillism_pipeline.py:203-223 | `_add_cylinder` yields four triangles per loop pass, every vertex on the `z0` or `z1` plane |
| MeshBuilder.CylinderHeights | pointillism_pipeline.py:216-223 | every cylinder vertex has `z == z0` or `z == z1` |
| MeshBuilder.AtHeightsAppend | pointillism_pipeline.py:208-223 | joining two lists whose vertices lie on the two planes keeps that property |
| MeshBuilder.FansCloseCaps | pointillism_pipeline.py:220-223 | every top and bottom fan triangle starts at the axis point of its cap |
| MeshBuilder.TriangleList.constructor | pointillism_pipeline.py:299 | a new triangle list is empty |
| MeshBuilder.TriangleList.Append | pointillism_pipeline.py:184 | `tris.append(t)` adds `t` at the end and changes nothing before it |
| MeshBuilder.TriangleList.AddBox | pointillism_pipeline.py:179-200 | the list becomes its old contents followed by the box's twelve triangles |
| MeshBuilder.TriangleList.AddSegment | pointillism_pipeline.py:209-223 | one pass appends the segment's four triangles after the old contents |
| MeshBuilder.TriangleList.AddCylinder | pointillism_pipeline.py:203-223 | the list becomes its old contents followed by the cylinder's `4*segments` triangles; nothing before them changes |
| MeshBuilder.CylinderStep | pointillism_pipeline.py:208-223 | the cylinder loop's invariant is preserved by each pass |
| MeshBuilder.DotsMeshHeights | pointillism_pipeline.py:309-312 | every vertex of a colour's mesh is on the base top or `dot_height` above it |
| MeshBuilder.DotsMesh | pointillism_pipeline.py:308-312 | a colour's mesh has `4*segments` triangles per dot |
| MeshBuilder.DotsMeshLast | pointillism_pipeline.py:311-312 | a colour's mesh is the mesh of all its dots but the last, followed by the last dot's cylinder |
| MeshBuilder.FileName | pointillism_pipeline.py:314 | `f"{part_name}.stl"` is the part name followed by `.stl` |
| MeshBuilder.PartNames | pointillism_pipeline.py:313 | one part name per colour: `slugify` of its name |
| MeshBuilder.DotsTriangles | pointillism_pipeline.py:308-312 | the loop over a colour's dots builds one cylinder per dot, in order |
| MeshBuilder.DotsStep | pointillism_pipeline.py:311-312 | each pass appends the next dot's cylinder |
| MeshBuilder.DotsDone | pointillism_pipeline.py:311-312 | after the last pass the list holds every dot's cylinder |
| MeshBuilder.WrittenStep | pointillism_pipeline.py:313-315 | each colour's write extends the record of writes |
| MeshBuilder.FilesStep | pointillism_pipeline.py:316 | each colour's entry extends the file map |
| MeshBuilder.ExportStlMeshes | pointillism_pipeline.py:281-317 | the base tile is written first, then each colour's mesh under its slug; the map has `base` and one key per slug, each mapped to `<key>.stl`, and nothing else |
| MeshBuilder.ExportSizes | pointillism_pipeline.py:298-316 | the base solid has twelve triangles; each colour's solid has `4*segments` triangles per dot, all on the two dot planes |
| MeshBuilder.OnDisk | pointillism_pipeline.py:315 | every written file exists afterwards, holding one of the solids written to it |
| MeshBuilder.LastWriteWins | pointillism_pipeline.py:315 | a file holds the last solid written to it |
| MeshBuilder.FileNameInjective | pointillism_pipeline.py:314 | two part names share a file name exactly when they are equal |
| MeshBuilder.ColourNamedBaseReplacesTile | pointillism_pipeline.py:302-316 | when a colour's slug is `base`, `base.stl` ends up holding the last such colour's dots |
| MeshBuilder.TileKept | pointillism_pipeline.py:302-316 | when no slug is `base`, `base.stl` holds the base tile |

## Left out

- File and library I/O is not modelled. This covers reading the palette file, `json.loads`, PIL's `Image.open`, `convert`, `load` and `save`, the STL and SVG text, `save_metadata`, `mkdir` and the command line. The JSON branch starts from records that are already decoded. A file write is recorded as a `Solid` holding the part name, the file name and the triangles.
- `write_ascii_stl`'s text, the SVG markup and the `.3f`/`.6f` number formatting are not modelled. They are floating-point output formatting.
- `resize_image_hex` is not modelled: it is a LANCZOS resample with float rounding. The dither takes the resulting buffer as given.
- The mask rasters of `export_masks` (the reverse mapping with `round`, and the PNG files) are not modelled. Their results only reach image files.
- The extents, coverage figures and `run` are not modelled. They are float arithmetic with `math.pi`.
- Millimetre coordinates are exact reals, not floats. The vertical pitch `spacing * sqrt(3) / 2` is a parameter (`Layout.pitch`), and `math.cos`, `math.sin` and `math.pi` are uninterpreted parameters (`Trig`).
- Text.Lower and Slug.Slugify lower-case the ASCII letters only. Python's `str.lower` also folds other scripts, so `SlugifyIdempotent` is stated for that model of `lower`.
- DotGrid.Dot and the SVG and STL numbers are exact values. Rounding at the overhang boundary (`x_mm > width_limit - radius`) is therefore not modelled.
- SvgColors.ColorHex, SvgColors.BackgroundFill and HexColor.FormatHex require every channel to be in [0, 255]. `%02X` of a larger value prints more digits. Palettes only come from `load_palette`, whose channels are always in range (`PaletteLoader.Load`).
- DotGrid.PlaceDots requires every name in the grid to come from the palette. The source raises `KeyError` otherwise, and that exception is not modelled. `DotGrid.DitherNamesFromPalette` shows the dither's grid always satisfies it.
- DotGrid.PlaceDots requires a non-empty grid. The source reads `color_grid[0]` and fails on an empty grid.
- DotGrid.OverhangRule, DotGrid.KeptTotal and DotGrid.PlacedTotal require a positive spacing. `--spacing-mm` (line 436) accepts any float. A zero spacing stops the script with `ZeroDivisionError` in `resize_image_hex` (line 85), before any dot is placed. A negative spacing gives a one-column image through `max(1, ...)` at line 85, and `DotGrid.OverhangRuleNegative` gives the rule that then applies: only the last column is kept, so every row keeps its one dot. Counts for that case are not stated.
- The `coords` dictionary is an ordered sequence of `(name, dots)` items with one item per distinct palette name, in first-occurrence order. The STL export walks it in that order.
- The `files` dictionary of `export_stl_meshes` is a `map`, so its insertion order is not modelled. The order of the writes is kept in the `written` sequence.
- A Python exception is a `Failure` value, for `_parse_hex` and the empty palette. An exception from I/O or JSON decoding is left out with the I/O itself.
- Three points of palette handling follow the code exactly, although a reader might expect otherwise:
  - a requested name that matches nothing is dropped silently, not reported (`PaletteLoader.UnknownNameDropped`);
  - the selected subset keeps the palette's order, not the order of the request (`PaletteLoader.FilterKeepsSourceOrder`, carried to the loader by `PaletteLoader.SelectedKeepsOrder`; `PaletteLoader.LoadMembers` states which entries are returned);
  - names are not checked for uniqueness; `DotGrid.Keys` keeps each name once, where it first occurs (`DotGrid.KeysOrder`).
