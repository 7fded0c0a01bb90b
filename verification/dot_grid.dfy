/**
 * Dot placement, the coordinate loop of `export_masks`: every cell of the
 * grid of palette names becomes a dot on a hex-staggered layout (odd rows
 * shifted right by half a spacing), a dot that overhangs the right edge is
 * dropped, and each kept dot is appended to the list of its colour.
 */
module DotGrid {
  import opened PaletteLoader
  import opened Quantizer
  import opened HexColor

  /** A dot centre in millimetres: `(x_mm, y_mm)`. */
  datatype Dot = Dot(x: real, y: real)

  /** One item of the `coords` dictionary: a colour name and its dots in order. */
  datatype ColorDots = ColorDots(name: string, dots: seq<Dot>)

  /** The `coords` dictionary, in insertion order. */
  type Coords = seq<ColorDots>

  /**
   * The layout parameters: centre spacing, dot diameter and the vertical
   * pitch `spacing * sqrt(3) / 2`, which is taken as given.
   */
  datatype Layout = Layout(spacing: real, diameter: real, pitch: real)

  function Radius(l: Layout): real
  {
    l.diameter / 2.0
  }

  /** Odd rows are shifted right by half a spacing. */
  function XOffset(l: Layout, y: nat): real
  {
    if y % 2 == 1 then l.spacing / 2.0 else 0.0
  }

  function XMm(l: Layout, x: nat, y: nat): real
  {
    Radius(l) + x as real * l.spacing + XOffset(l, y)
  }

  function YMm(l: Layout, y: nat): real
  {
    Radius(l) + y as real * l.pitch
  }

  /** `width_limit = (width - 1) * spacing_mm + dot_diameter_mm` */
  function WidthLimit(l: Layout, w: nat): real
  {
    (w as real - 1.0) * l.spacing + l.diameter
  }

  /** The test that drops a dot: `x_mm > width_limit - radius`. */
  predicate Overhangs(l: Layout, w: nat, x: nat, y: nat)
  {
    XMm(l, x, y) > WidthLimit(l, w) - Radius(l)
  }

  /** With non-negative spacing (zero included), no dot of an even row is dropped: even rows have no offset. */
  lemma EvenRowKept(l: Layout, w: nat, x: nat, y: nat)
    ensures l.spacing >= 0.0 && x < w && y % 2 == 0 ==> !Overhangs(l, w, x, y)
  {
    assert WidthLimit(l, w) - Radius(l) - XMm(l, x, y) == (w - 1 - x) as real * l.spacing - XOffset(l, y);
  }

  /**
   * With a positive spacing the overhang test is a rule on grid indices:
   * a dot is dropped exactly when its row is odd and it is the last column.
   */
  lemma OverhangRule(l: Layout, w: nat, x: nat, y: nat)
    requires l.spacing > 0.0 && x < w
    ensures Overhangs(l, w, x, y) <==> y % 2 == 1 && x == w - 1
  {
    var gap := (w - 1 - x) as real;
    assert WidthLimit(l, w) - Radius(l) - XMm(l, x, y) == gap * l.spacing - XOffset(l, y);
    if x < w - 1 {
      assert gap >= 1.0;
      assert gap * l.spacing >= l.spacing;
    }
  }

  /**
   * With a negative spacing the columns run leftwards and the test keeps
   * only the last column, on every row.
   */
  lemma OverhangRuleNegative(l: Layout, w: nat, x: nat, y: nat)
    requires l.spacing < 0.0 && x < w
    ensures Overhangs(l, w, x, y) <==> x < w - 1
  {
    var gap := (w - 1 - x) as real;
    assert WidthLimit(l, w) - Radius(l) - XMm(l, x, y) == gap * l.spacing - XOffset(l, y);
    if x < w - 1 {
      assert gap >= 1.0;
      assert gap * l.spacing <= l.spacing;
    }
  }

  /** A kept cell: the name in the grid and the dot's centre. */
  datatype Placed = Placed(name: string, dot: Dot)

  /** What cell `(x, y)` adds: its dot, unless the dot overhangs. */
  function CellDots(grid: seq<seq<string>>, l: Layout, w: nat, h: nat, y: nat, x: nat): (c: seq<Placed>)
    requires IsGrid(grid, w, h) && y < h && x < w
    ensures |c| <= 1
  {
    if Overhangs(l, w, x, y) then [] else [Placed(grid[y][x], Dot(XMm(l, x, y), YMm(l, y)))]
  }

  /** The kept cells before `(x, y)`, in the row-major order of the loop. */
  function KeptUpTo(grid: seq<seq<string>>, l: Layout, w: nat, h: nat, y: nat, x: nat): seq<Placed>
    requires IsGrid(grid, w, h)
    requires (y < h && x <= w) || (y == h && x == 0)
    decreases y, x
  {
    if x > 0 then KeptUpTo(grid, l, w, h, y, x - 1) + CellDots(grid, l, w, h, y, x - 1)
    else if y > 0 then KeptUpTo(grid, l, w, h, y - 1, w)
    else []
  }

  /** Every kept cell of the grid. */
  function Kept(grid: seq<seq<string>>, l: Layout, w: nat, h: nat): (kept: seq<Placed>)
    requires IsGrid(grid, w, h)
    ensures w >= 1 && l.spacing > 0.0 ==> |kept| == h * w - h / 2
  {
    if w >= 1 && l.spacing > 0.0 then
      KeptCount(grid, l, w, h, h, 0);
      KeptUpTo(grid, l, w, h, h, 0)
    else KeptUpTo(grid, l, w, h, h, 0)
  }

  /** The dots of the cells named `name`, in order. */
  function DotsOf(kept: seq<Placed>, name: string): (d: seq<Dot>)
    ensures |d| <= |kept|
  {
    if kept == [] then []
    else
      var front := DotsOf(kept[..|kept| - 1], name);
      var p := kept[|kept| - 1];
      if p.name == name then front + [p.dot] else front
  }

  lemma DotsOfAppend(kept: seq<Placed>, more: seq<Placed>, name: string)
    requires |more| <= 1
    ensures DotsOf(kept + more, name) == DotsOf(kept, name) + DotsOf(more, name)
  {
    if more != [] {
      assert (kept + more)[..|kept + more| - 1] == kept;
      assert more[..0] == [];
      assert DotsOf(more, name) == (if more[0].name == name then [more[0].dot] else []);
      assert DotsOf(kept + more, name) ==
             (if more[0].name == name then DotsOf(kept, name) + [more[0].dot] else DotsOf(kept, name));
    }
    assert DotsOf(kept, name) + [] == DotsOf(kept, name);
    assert kept + [] == kept;
  }

  /** A dot lands in a colour's list exactly when a kept cell of that colour has it. */
  lemma {:induction false} DotsOfMember(kept: seq<Placed>, name: string, d: Dot)
    ensures d in DotsOf(kept, name) <==> Placed(name, d) in kept
  {
    if kept != [] {
      var front := kept[..|kept| - 1];
      DotsOfMember(front, name, d);
      assert kept == front + [kept[|kept| - 1]];
    }
  }

  /** `{name: [] for name, _ in palette}`: each name once, where it first occurs. */
  function Keys(palette: Palette): (keys: seq<string>)
    ensures forall i, j :: 0 <= i < j < |keys| ==> keys[i] != keys[j]
    ensures forall i :: 0 <= i < |palette| ==> palette[i].name in keys
    ensures forall n :: n in keys ==> exists i :: 0 <= i < |palette| && palette[i].name == n
  {
    if palette == [] then []
    else
      var front := Keys(palette[..|palette| - 1]);
      var n := palette[|palette| - 1].name;
      if n in front then front else front + [n]
  }

  /** Every occurrence of `b` in the palette comes after some occurrence of `a`. */
  ghost predicate FirstSeenBefore(palette: Palette, a: string, b: string)
  {
    forall q :: 0 <= q < |palette| && palette[q].name == b ==>
      exists p :: 0 <= p < q && palette[p].name == a
  }

  /** Dictionary keys keep insertion order: a key comes before every key first seen after it. */
  lemma {:induction false} KeysOrder(palette: Palette)
    ensures forall i, j :: 0 <= i < j < |Keys(palette)| ==> FirstSeenBefore(palette, Keys(palette)[i], Keys(palette)[j])
    decreases |palette|
  {
    if palette != [] {
      var m := |palette| - 1;
      var front := palette[..m];
      var fk := Keys(front);
      var keys := Keys(palette);
      KeysOrder(front);
      forall i, j | 0 <= i < j < |keys| ensures FirstSeenBefore(palette, keys[i], keys[j]) {
        assert keys[i] == fk[i] && fk[i] in fk;
        if j < |fk| {
          assert keys[j] == fk[j] && fk[j] in fk;
          FirstSeenBeforeExtend(palette, fk[i], fk[j]);
        } else {
          FirstSeenBeforeNew(palette, fk[i]);
        }
      }
    }
  }

  /** An order between names already seen survives one more palette entry. */
  lemma FirstSeenBeforeExtend(palette: Palette, a: string, b: string)
    requires palette != []
    requires FirstSeenBefore(palette[..|palette| - 1], a, b)
    requires exists q :: 0 <= q < |palette| - 1 && palette[q].name == b
    ensures FirstSeenBefore(palette, a, b)
  {
    var m := |palette| - 1;
    var front := palette[..m];
    forall q | 0 <= q < |palette| && palette[q].name == b
      ensures exists p :: 0 <= p < q && palette[p].name == a
    {
      var q' := q;
      if q == m {
        q' :| 0 <= q' < m && palette[q'].name == b;
      }
      assert front[q'].name == b;
      var p :| 0 <= p < q' && front[p].name == a;
      assert palette[p].name == a;
    }
  }

  /** A name first seen in the last entry comes after every name seen before it. */
  lemma FirstSeenBeforeNew(palette: Palette, a: string)
    requires palette != []
    requires palette[|palette| - 1].name !in Keys(palette[..|palette| - 1])
    requires a in Keys(palette[..|palette| - 1])
    ensures FirstSeenBefore(palette, a, palette[|palette| - 1].name)
  {
    var m := |palette| - 1;
    var front := palette[..m];
    forall q | 0 <= q < |palette| && palette[q].name == palette[m].name
      ensures exists p :: 0 <= p < q && palette[p].name == a
    {
      var p :| 0 <= p < m && front[p].name == a;
      assert palette[p].name == a;
    }
  }

  /** `coords[name]`: the position of a key. */
  function IndexOf(keys: seq<string>, name: string): (i: nat)
    requires name in keys
    ensures i < |keys| && keys[i] == name
  {
    if keys[0] == name then 0 else 1 + IndexOf(keys[1..], name)
  }

  /** The dictionary once the kept cells have been appended. */
  function Group(keys: seq<string>, kept: seq<Placed>): (coords: Coords)
    ensures |coords| == |keys|
  {
    seq(|keys|, k requires 0 <= k < |keys| => ColorDots(keys[k], DotsOf(kept, keys[k])))
  }

  /** Appending one kept cell extends only the list of its own colour. */
  lemma GroupAppend(keys: seq<string>, kept: seq<Placed>, p: Placed)
    requires forall i, j :: 0 <= i < j < |keys| ==> keys[i] != keys[j]
    requires p.name in keys
    ensures var i := IndexOf(keys, p.name);
            var g := Group(keys, kept);
            Group(keys, kept + [p]) == g[i := ColorDots(p.name, g[i].dots + [p.dot])]
  {
    var i := IndexOf(keys, p.name);
    forall k | 0 <= k < |keys|
      ensures DotsOf(kept + [p], keys[k]) == DotsOf(kept, keys[k]) + (if k == i then [p.dot] else [])
    {
      DotsOfAppend(kept, [p], keys[k]);
    }
  }

  /** The grid of names `floyd_steinberg_dither` hands over: every cell names a palette colour. */
  predicate NamesFromPalette(grid: seq<seq<string>>, palette: Palette, w: nat, h: nat)
    requires IsGrid(grid, w, h)
  {
    forall y, x :: 0 <= y < h && 0 <= x < w ==> grid[y][x] in Keys(palette)
  }

  /** The names the dither writes are all keys of the coordinate dictionary. */
  lemma DitherNamesFromPalette(img: seq<seq<Color>>, palette: Palette, w: nat, h: nat)
    requires IsGrid(img, w, h) && |palette| > 0
    requires AllInRange(palette) && GridInRange(img, w, h)
    ensures IsGrid(Dither(img, palette, w, h).names, w, h)
    ensures NamesFromPalette(Dither(img, palette, w, h).names, palette, w, h)
  {
    var d := Dither(img, palette, w, h);
    DitherCorrect(img, palette, w, h);
    forall y, x | 0 <= y < h && 0 <= x < w
      ensures d.names[y][x] in Keys(palette)
    {
      var e := Entry(d.names[y][x], d.img[y][x]);
      var i :| 0 <= i < |palette| && palette[i] == e;
      assert palette[i].name == d.names[y][x];
    }
  }

  /** The loop's position and the dictionary agree with `Group` of the cells before it. */
  ghost predicate PlacedUpTo(grid: seq<seq<string>>, palette: Palette, l: Layout, w: nat, h: nat, y: nat, x: nat, coords: Coords)
    requires IsGrid(grid, w, h)
    requires (y < h && x <= w) || (y == h && x == 0)
  {
    coords == Group(Keys(palette), KeptUpTo(grid, l, w, h, y, x))
  }

  /** One pass of the inner loop body: append the cell's dot unless it overhangs. */
  method PlaceCell(grid: seq<seq<string>>, palette: Palette, l: Layout, w: nat, h: nat, y: nat, x: nat, coords: Coords)
    returns (coords': Coords)
    requires IsGrid(grid, w, h) && NamesFromPalette(grid, palette, w, h)
    requires y < h && x < w
    requires PlacedUpTo(grid, palette, l, w, h, y, x, coords)
    ensures PlacedUpTo(grid, palette, l, w, h, y, x + 1, coords')
  {
    var keys := Keys(palette);
    var name := grid[y][x];
    ghost var before := KeptUpTo(grid, l, w, h, y, x);
    assert KeptUpTo(grid, l, w, h, y, x + 1) == before + CellDots(grid, l, w, h, y, x);
    coords' := coords;
    if !Overhangs(l, w, x, y) {
      var i := IndexOf(keys, name);
      var p := Placed(name, Dot(XMm(l, x, y), YMm(l, y)));
      GroupAppend(keys, before, p);
      coords' := coords[i := ColorDots(name, coords[i].dots + [p.dot])];
    } else {
      assert before + CellDots(grid, l, w, h, y, x) == before;
    }
  }

  /** `{name: [] for name, _ in palette}` */
  function EmptyLists(palette: Palette): (coords: Coords)
    ensures |coords| == |Keys(palette)|
    ensures forall k :: 0 <= k < |coords| ==> coords[k] == ColorDots(Keys(palette)[k], [])
  {
    var keys := Keys(palette);
    seq(|keys|, k requires 0 <= k < |keys| => ColorDots(keys[k], []))
  }

  /** The loop starts with an empty list per palette name. */
  lemma PlacedStart(grid: seq<seq<string>>, palette: Palette, l: Layout, w: nat, h: nat)
    requires IsGrid(grid, w, h)
    ensures PlacedUpTo(grid, palette, l, w, h, 0, 0, EmptyLists(palette))
  {
  }

  /** The end of a row is the start of the next. */
  lemma PlacedRowEnd(grid: seq<seq<string>>, palette: Palette, l: Layout, w: nat, h: nat, y: nat, coords: Coords)
    requires IsGrid(grid, w, h) && y < h
    requires PlacedUpTo(grid, palette, l, w, h, y, w, coords)
    ensures PlacedUpTo(grid, palette, l, w, h, y + 1, 0, coords)
  {
    assert KeptUpTo(grid, l, w, h, y + 1, 0) == KeptUpTo(grid, l, w, h, y, w);
  }

  lemma PlacedEnd(grid: seq<seq<string>>, palette: Palette, l: Layout, w: nat, h: nat, coords: Coords)
    requires IsGrid(grid, w, h)
    requires PlacedUpTo(grid, palette, l, w, h, h, 0, coords)
    ensures coords == Group(Keys(palette), Kept(grid, l, w, h))
  {
  }

  /** The inner loop over the cells of row `y`. */
  method PlaceRow(grid: seq<seq<string>>, palette: Palette, l: Layout, w: nat, h: nat, y: nat, coords: Coords)
    returns (coords': Coords)
    requires IsGrid(grid, w, h) && NamesFromPalette(grid, palette, w, h) && y < h
    requires PlacedUpTo(grid, palette, l, w, h, y, 0, coords)
    ensures PlacedUpTo(grid, palette, l, w, h, y + 1, 0, coords')
  {
    coords' := coords;
    var x := 0;
    while x < w
      invariant 0 <= x <= w
      invariant PlacedUpTo(grid, palette, l, w, h, y, x, coords')
    {
      coords' := PlaceCell(grid, palette, l, w, h, y, x, coords');
      x := x + 1;
    }
    PlacedRowEnd(grid, palette, l, w, h, y, coords');
  }

  /**
   * The coordinate loop of `export_masks`: the result maps every palette
   * name, in palette order, to the dots of its kept cells in row-major order.
   */
  method PlaceDots(grid: seq<seq<string>>, palette: Palette, l: Layout) returns (coords: Coords)
    requires |grid| >= 1 && IsGrid(grid, |grid[0]|, |grid|)
    requires NamesFromPalette(grid, palette, |grid[0]|, |grid|)
    ensures coords == Group(Keys(palette), Kept(grid, l, |grid[0]|, |grid|))
  {
    var height := |grid|;
    var width := |grid[0]|;
    coords := EmptyLists(palette);
    PlacedStart(grid, palette, l, width, height);
    var y := 0;
    while y < height
      invariant 0 <= y <= height
      invariant PlacedUpTo(grid, palette, l, width, height, y, 0, coords)
    {
      coords := PlaceRow(grid, palette, l, width, height, y, coords);
      y := y + 1;
    }
    PlacedEnd(grid, palette, l, width, height, coords);
  }

  /** Each kept cell's dot is in the list of the colour its cell names. */
  lemma {:induction false} KeptCellListed(grid: seq<seq<string>>, l: Layout, w: nat, h: nat, y: nat, x: nat, j: nat, i: nat)
    requires IsGrid(grid, w, h)
    requires (y < h && x <= w) || (y == h && x == 0)
    requires j < h && i < w && Precedes(j, i, y, x) && !Overhangs(l, w, i, j)
    ensures Placed(grid[j][i], Dot(XMm(l, i, j), YMm(l, j))) in KeptUpTo(grid, l, w, h, y, x)
    decreases y, x
  {
    if x > 0 {
      if j == y && i == x - 1 {
        assert CellDots(grid, l, w, h, y, x - 1) == [Placed(grid[j][i], Dot(XMm(l, i, j), YMm(l, j)))];
      } else {
        KeptCellListed(grid, l, w, h, y, x - 1, j, i);
      }
    } else {
      KeptCellListed(grid, l, w, h, y - 1, w, j, i);
    }
  }

  /** Every dot that is not dropped appears in its colour's list. */
  lemma DotListed(grid: seq<seq<string>>, palette: Palette, l: Layout, w: nat, h: nat, j: nat, i: nat)
    requires IsGrid(grid, w, h) && NamesFromPalette(grid, palette, w, h)
    requires j < h && i < w && !Overhangs(l, w, i, j)
    ensures var coords := Group(Keys(palette), Kept(grid, l, w, h));
            var k := IndexOf(Keys(palette), grid[j][i]);
            coords[k].name == grid[j][i] && Dot(XMm(l, i, j), YMm(l, j)) in coords[k].dots
  {
    KeptCellListed(grid, l, w, h, h, 0, j, i);
    DotsOfMember(Kept(grid, l, w, h), grid[j][i], Dot(XMm(l, i, j), YMm(l, j)));
  }

  /** Cell `(x, y)` contributes one dot, or none when it is the last of an odd row. */
  lemma CellCount(grid: seq<seq<string>>, l: Layout, w: nat, h: nat, y: nat, x: nat)
    requires IsGrid(grid, w, h) && y < h && x < w && l.spacing > 0.0
    ensures |CellDots(grid, l, w, h, y, x)| == if y % 2 == 1 && x == w - 1 then 0 else 1
  {
    OverhangRule(l, w, x, y);
  }

  /** Row `y` keeps all `w` of its dots when even, `w - 1` when odd. */
  lemma {:induction false} KeptCount(grid: seq<seq<string>>, l: Layout, w: nat, h: nat, y: nat, x: nat)
    requires IsGrid(grid, w, h) && w >= 1 && l.spacing > 0.0
    requires (y < h && x <= w) || (y == h && x == 0)
    ensures |KeptUpTo(grid, l, w, h, y, x)| == y * w - y / 2 + (if y % 2 == 1 && x == w then x - 1 else x)
    decreases y, x
  {
    if x > 0 {
      KeptCount(grid, l, w, h, y, x - 1);
      CellCount(grid, l, w, h, y, x - 1);
    } else if y > 0 {
      KeptCount(grid, l, w, h, y - 1, w);
      RowEndCount(y, w);
    }
  }

  /** The count after a full row `y - 1` is the count at the start of row `y`. */
  lemma RowEndCount(y: nat, w: nat)
    requires y > 0 && w >= 1
    ensures (y - 1) * w - (y - 1) / 2 + (if (y - 1) % 2 == 1 then w - 1 else w) == y * w - y / 2
  {
    assert y * w == (y - 1) * w + w;
  }

  /** `height * width - height // 2` dots survive. */
  lemma KeptTotal(grid: seq<seq<string>>, l: Layout, w: nat, h: nat)
    requires IsGrid(grid, w, h) && w >= 1 && l.spacing > 0.0
    ensures |Kept(grid, l, w, h)| == h * w - h / 2
  {
    KeptCount(grid, l, w, h, h, 0);
  }

  /** `sum(len(v) for v in coords.values())` */
  function TotalDots(coords: Coords): nat
  {
    if coords == [] then 0 else |coords[0].dots| + TotalDots(coords[1..])
  }

  /** How many keys equal `name`. */
  function Occurrences(keys: seq<string>, name: string): nat
  {
    if keys == [] then 0 else (if keys[0] == name then 1 else 0) + Occurrences(keys[1..], name)
  }

  lemma {:induction false} OccursOnce(keys: seq<string>, name: string)
    requires forall i, j :: 0 <= i < j < |keys| ==> keys[i] != keys[j]
    ensures Occurrences(keys, name) == (if name in keys then 1 else 0)
  {
    if keys != [] {
      OccursOnce(keys[1..], name);
      if keys[0] == name {
        assert name !in keys[1..];
      }
    }
  }

  lemma {:induction false} TotalDotsAppend(keys: seq<string>, kept: seq<Placed>, p: Placed)
    ensures TotalDots(Group(keys, kept + [p])) == TotalDots(Group(keys, kept)) + Occurrences(keys, p.name)
  {
    if keys != [] {
      TotalDotsAppend(keys[1..], kept, p);
      assert Group(keys, kept + [p])[1..] == Group(keys[1..], kept + [p]);
      assert Group(keys, kept)[1..] == Group(keys[1..], kept);
      DotsOfAppend(kept, [p], keys[0]);
    }
  }

  /** Every kept cell is counted in exactly one colour's list. */
  lemma {:induction false} TotalDotsGroup(keys: seq<string>, kept: seq<Placed>)
    requires forall i, j :: 0 <= i < j < |keys| ==> keys[i] != keys[j]
    requires forall p :: p in kept ==> p.name in keys
    ensures TotalDots(Group(keys, kept)) == |kept|
  {
    if kept == [] {
      TotalDotsEmpty(keys);
    } else {
      var front := kept[..|kept| - 1];
      var p := kept[|kept| - 1];
      TotalDotsGroup(keys, front);
      assert kept == front + [p];
      TotalDotsAppend(keys, front, p);
      OccursOnce(keys, p.name);
    }
  }

  lemma {:induction false} TotalDotsEmpty(keys: seq<string>)
    ensures TotalDots(Group(keys, [])) == 0
  {
    if keys != [] {
      TotalDotsEmpty(keys[1..]);
      assert Group(keys, [])[1..] == Group(keys[1..], []);
    }
  }

  lemma CellNamed(grid: seq<seq<string>>, l: Layout, w: nat, h: nat, y: nat, x: nat)
    requires IsGrid(grid, w, h) && y < h && x < w
    ensures forall p :: p in CellDots(grid, l, w, h, y, x) ==> p.name == grid[y][x]
  {
  }

  /** Every kept cell names a palette colour. */
  lemma {:induction false} KeptNamesFromPalette(grid: seq<seq<string>>, palette: Palette, l: Layout, w: nat, h: nat, y: nat, x: nat)
    requires IsGrid(grid, w, h) && NamesFromPalette(grid, palette, w, h)
    requires (y < h && x <= w) || (y == h && x == 0)
    ensures forall p :: p in KeptUpTo(grid, l, w, h, y, x) ==> p.name in Keys(palette)
    decreases y, x
  {
    if x > 0 {
      KeptNamesFromPalette(grid, palette, l, w, h, y, x - 1);
      CellNamed(grid, l, w, h, y, x - 1);
      assert grid[y][x - 1] in Keys(palette);
    } else if y > 0 {
      KeptNamesFromPalette(grid, palette, l, w, h, y - 1, w);
      assert KeptUpTo(grid, l, w, h, y, x) == KeptUpTo(grid, l, w, h, y - 1, w);
    } else {
      assert KeptUpTo(grid, l, w, h, y, x) == [];
    }
  }

  /** The dictionary holds `height * width - height // 2` dots in all. */
  lemma PlacedTotal(grid: seq<seq<string>>, palette: Palette, l: Layout, w: nat, h: nat)
    requires IsGrid(grid, w, h) && w >= 1 && l.spacing > 0.0
    requires NamesFromPalette(grid, palette, w, h)
    ensures TotalDots(Group(Keys(palette), Kept(grid, l, w, h))) == h * w - h / 2
  {
    KeptNamesFromPalette(grid, palette, l, w, h, h, 0);
    assert Kept(grid, l, w, h) == KeptUpTo(grid, l, w, h, h, 0);
    TotalDotsGroup(Keys(palette), Kept(grid, l, w, h));
    KeptTotal(grid, l, w, h);
  }
}
