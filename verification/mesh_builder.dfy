/**
 * Mesh construction for the STL export: `_add_box` and `_add_cylinder`
 * append triangles to a caller-owned list, and `export_stl_meshes` builds the
 * base tile plus one mesh of dot cylinders per colour, writes each as a
 * solid and returns the part-name to file-name map. Cosine, sine and pi
 * are parameters.
 */
module MeshBuilder {
  import opened Slug
  import opened DotGrid

  datatype Point = Point(x: real, y: real, z: real)

  datatype Triangle = Triangle(p1: Point, p2: Point, p3: Point)

  /** `math.cos`, `math.sin` and `math.pi`, left uninterpreted. */
  datatype Trig = Trig(cos: real -> real, sin: real -> real, pi: real)

  // ---------------------------------------------------------------------
  // `_add_box`
  // ---------------------------------------------------------------------

  /** The twelve triangles `_add_box` appends: bottom, top, then the four sides. */
  function BoxTriangles(x0: real, y0: real, x1: real, y1: real, z0: real, z1: real): (tris: seq<Triangle>)
    ensures |tris| == 12
  {
    [ Triangle(Point(x0, y0, z0), Point(x1, y0, z0), Point(x1, y1, z0)),
      Triangle(Point(x0, y0, z0), Point(x1, y1, z0), Point(x0, y1, z0)),
      Triangle(Point(x0, y0, z1), Point(x1, y1, z1), Point(x1, y0, z1)),
      Triangle(Point(x0, y0, z1), Point(x0, y1, z1), Point(x1, y1, z1)),
      Triangle(Point(x0, y0, z0), Point(x0, y0, z1), Point(x1, y0, z1)),
      Triangle(Point(x0, y0, z0), Point(x1, y0, z1), Point(x1, y0, z0)),
      Triangle(Point(x1, y0, z0), Point(x1, y0, z1), Point(x1, y1, z1)),
      Triangle(Point(x1, y0, z0), Point(x1, y1, z1), Point(x1, y1, z0)),
      Triangle(Point(x1, y1, z0), Point(x1, y1, z1), Point(x0, y1, z1)),
      Triangle(Point(x1, y1, z0), Point(x0, y1, z1), Point(x0, y1, z0)),
      Triangle(Point(x0, y1, z0), Point(x0, y1, z1), Point(x0, y0, z1)),
      Triangle(Point(x0, y1, z0), Point(x0, y0, z1), Point(x0, y0, z0)) ]
  }

  /** A point is one of the eight corners of the box. */
  predicate IsCorner(p: Point, x0: real, y0: real, x1: real, y1: real, z0: real, z1: real)
  {
    (p.x == x0 || p.x == x1) && (p.y == y0 || p.y == y1) && (p.z == z0 || p.z == z1)
  }

  /** All three vertices lie on one face plane of the box. */
  predicate OnOneFace(t: Triangle, x0: real, y0: real, x1: real, y1: real, z0: real, z1: real)
  {
    || (t.p1.x == t.p2.x == t.p3.x && (t.p1.x == x0 || t.p1.x == x1))
    || (t.p1.y == t.p2.y == t.p3.y && (t.p1.y == y0 || t.p1.y == y1))
    || (t.p1.z == t.p2.z == t.p3.z && (t.p1.z == z0 || t.p1.z == z1))
  }

  /** Every vertex of the box mesh is a corner, and every triangle lies on a face. */
  lemma BoxShape(x0: real, y0: real, x1: real, y1: real, z0: real, z1: real)
    ensures forall t :: t in BoxTriangles(x0, y0, x1, y1, z0, z1) ==>
              && IsCorner(t.p1, x0, y0, x1, y1, z0, z1)
              && IsCorner(t.p2, x0, y0, x1, y1, z0, z1)
              && IsCorner(t.p3, x0, y0, x1, y1, z0, z1)
              && OnOneFace(t, x0, y0, x1, y1, z0, z1)
  {
    var b := BoxTriangles(x0, y0, x1, y1, z0, z1);
    forall t | t in b
      ensures && IsCorner(t.p1, x0, y0, x1, y1, z0, z1)
              && IsCorner(t.p2, x0, y0, x1, y1, z0, z1)
              && IsCorner(t.p3, x0, y0, x1, y1, z0, z1)
              && OnOneFace(t, x0, y0, x1, y1, z0, z1)
    {
      var k :| 0 <= k < 12 && b[k] == t;
    }
  }

  // ---------------------------------------------------------------------
  // `_add_cylinder`
  // ---------------------------------------------------------------------

  /** `two_pi * i / segments` */
  function Angle(trig: Trig, i: int, segments: int): real
    requires segments > 0
  {
    2.0 * trig.pi * i as real / segments as real
  }

  /** The rim point at angle `a`: `(cx + r cos a, cy + r sin a, z)`. */
  function Rim(trig: Trig, cx: real, cy: real, r: real, a: real, z: real): Point
  {
    Point(cx + r * trig.cos(a), cy + r * trig.sin(a), z)
  }

  /** The four triangles of segment `i`: the side quad, the top fan and the bottom fan. */
  function SegmentTriangles(trig: Trig, cx: real, cy: real, r: real, z0: real, z1: real, segments: int, i: int): (tris: seq<Triangle>)
    requires 0 <= i < segments
    ensures |tris| == 4
  {
    var a0 := Angle(trig, i, segments);
    var a1 := Angle(trig, i + 1, segments);
    [ Triangle(Rim(trig, cx, cy, r, a0, z0), Rim(trig, cx, cy, r, a1, z0), Rim(trig, cx, cy, r, a1, z1)),
      Triangle(Rim(trig, cx, cy, r, a0, z0), Rim(trig, cx, cy, r, a1, z1), Rim(trig, cx, cy, r, a0, z1)),
      Triangle(Point(cx, cy, z1), Rim(trig, cx, cy, r, a1, z1), Rim(trig, cx, cy, r, a0, z1)),
      Triangle(Point(cx, cy, z0), Rim(trig, cx, cy, r, a0, z0), Rim(trig, cx, cy, r, a1, z0)) ]
  }

  /** Every vertex sits at the bottom or the top of the cylinder. */
  predicate AtHeights(tris: seq<Triangle>, z0: real, z1: real)
  {
    forall t :: t in tris ==>
      (t.p1.z == z0 || t.p1.z == z1) && (t.p2.z == z0 || t.p2.z == z1) && (t.p3.z == z0 || t.p3.z == z1)
  }

  /** `range(segments)` runs `max(0, segments)` times. */
  function SegmentCount(segments: int): (n: nat)
    ensures n >= segments
    ensures n == 0 || n == segments
  {
    if segments < 0 then 0 else segments
  }

  /** The triangles of the first `n` segments, in loop order. */
  function CylinderTriangles(trig: Trig, cx: real, cy: real, r: real, z0: real, z1: real, segments: int, n: nat): (tris: seq<Triangle>)
    requires n <= SegmentCount(segments)
    ensures |tris| == 4 * n
  {
    if n == 0 then []
    else CylinderTriangles(trig, cx, cy, r, z0, z1, segments, n - 1) + SegmentTriangles(trig, cx, cy, r, z0, z1, segments, n - 1)
  }

  /** Every vertex of a cylinder lies on its bottom or top plane. */
  lemma {:induction false} CylinderHeights(trig: Trig, cx: real, cy: real, r: real, z0: real, z1: real, segments: int, n: nat)
    requires n <= SegmentCount(segments)
    ensures AtHeights(CylinderTriangles(trig, cx, cy, r, z0, z1, segments, n), z0, z1)
  {
    if n > 0 {
      CylinderHeights(trig, cx, cy, r, z0, z1, segments, n - 1);
      AtHeightsAppend(CylinderTriangles(trig, cx, cy, r, z0, z1, segments, n - 1), SegmentTriangles(trig, cx, cy, r, z0, z1, segments, n - 1), z0, z1);
    }
  }

  lemma AtHeightsAppend(a: seq<Triangle>, b: seq<Triangle>, z0: real, z1: real)
    requires AtHeights(a, z0, z1) && AtHeights(b, z0, z1)
    ensures AtHeights(a + b, z0, z1)
  {
    assert forall t :: t in a + b ==> t in a || t in b;
  }

  /** All segments of one cylinder. */
  function Cylinder(trig: Trig, cx: real, cy: real, r: real, z0: real, z1: real, segments: int): (tris: seq<Triangle>)
    ensures |tris| == 4 * SegmentCount(segments)
    ensures AtHeights(tris, z0, z1)
  {
    CylinderHeights(trig, cx, cy, r, z0, z1, segments, SegmentCount(segments));
    CylinderTriangles(trig, cx, cy, r, z0, z1, segments, SegmentCount(segments))
  }

  /** Every fan triangle of the first `n` segments starts at the centre of its cap. */
  ghost predicate FansMeetAxis(tris: seq<Triangle>, cx: real, cy: real, z0: real, z1: real, n: nat)
    requires |tris| == 4 * n
  {
    forall i :: 0 <= i < n ==> tris[4 * i + 2].p1 == Point(cx, cy, z1) && tris[4 * i + 3].p1 == Point(cx, cy, z0)
  }

  /** The cap fans close over the axis: every top and bottom triangle has the centre as a vertex. */
  lemma {:induction false} FansCloseCaps(trig: Trig, cx: real, cy: real, r: real, z0: real, z1: real, segments: int, n: nat)
    requires n <= SegmentCount(segments)
    ensures FansMeetAxis(CylinderTriangles(trig, cx, cy, r, z0, z1, segments, n), cx, cy, z0, z1, n)
  {
    if n > 0 {
      FansCloseCaps(trig, cx, cy, r, z0, z1, segments, n - 1);
      var front := CylinderTriangles(trig, cx, cy, r, z0, z1, segments, n - 1);
      var last := SegmentTriangles(trig, cx, cy, r, z0, z1, segments, n - 1);
      var tris := front + last;
      assert tris == CylinderTriangles(trig, cx, cy, r, z0, z1, segments, n);
      forall i | 0 <= i < n
        ensures tris[4 * i + 2].p1 == Point(cx, cy, z1) && tris[4 * i + 3].p1 == Point(cx, cy, z0)
      {
        if i < n - 1 {
          assert tris[4 * i + 2] == front[4 * i + 2] && tris[4 * i + 3] == front[4 * i + 3];
        } else {
          assert tris[4 * i + 2] == last[2] && tris[4 * i + 3] == last[3];
        }
      }
    }
  }

  /** The caller-owned `tris` list that `_add_box` and `_add_cylinder` append to. */
  class TriangleList {
    var tris: seq<Triangle>

    constructor()
      ensures tris == []
    {
      tris := [];
    }

    method Append(t: Triangle)
      modifies this
      ensures tris == old(tris) + [t]
    {
      tris := tris + [t];
    }

    /** `_add_box`: appends the twelve triangles of `BoxTriangles`, in that order. */
    method AddBox(x0: real, y0: real, x1: real, y1: real, z0: real, z1: real)
      modifies this
      ensures tris == old(tris) + BoxTriangles(x0, y0, x1, y1, z0, z1)
    {
      tris := tris + BoxTriangles(x0, y0, x1, y1, z0, z1);
    }

    /** One pass of `_add_cylinder`'s loop: the two side triangles, the top fan, the bottom fan. */
    method AddSegment(cx: real, cy: real, r: real, z0: real, z1: real, segments: int, trig: Trig, i: int)
      requires 0 <= i < segments
      modifies this
      ensures tris == old(tris) + SegmentTriangles(trig, cx, cy, r, z0, z1, segments, i)
    {
      var a0 := Angle(trig, i, segments);
      var a1 := Angle(trig, i + 1, segments);
      Append(Triangle(Rim(trig, cx, cy, r, a0, z0), Rim(trig, cx, cy, r, a1, z0), Rim(trig, cx, cy, r, a1, z1)));
      Append(Triangle(Rim(trig, cx, cy, r, a0, z0), Rim(trig, cx, cy, r, a1, z1), Rim(trig, cx, cy, r, a0, z1)));
      Append(Triangle(Point(cx, cy, z1), Rim(trig, cx, cy, r, a1, z1), Rim(trig, cx, cy, r, a0, z1)));
      Append(Triangle(Point(cx, cy, z0), Rim(trig, cx, cy, r, a0, z0), Rim(trig, cx, cy, r, a1, z0)));
    }

    /** `_add_cylinder`: `segments` passes, four triangles each. */
    method AddCylinder(cx: real, cy: real, r: real, z0: real, z1: real, segments: int, trig: Trig)
      modifies this
      ensures tris == old(tris) + Cylinder(trig, cx, cy, r, z0, z1, segments)
    {
      ghost var start := tris;
      var i := 0;
      while i < segments
        invariant 0 <= i <= SegmentCount(segments)
        invariant CylinderSoFar(start, tris, trig, cx, cy, r, z0, z1, segments, i)
      {
        ghost var before := tris;
        AddSegment(cx, cy, r, z0, z1, segments, trig, i);
        CylinderStep(start, before, tris, trig, cx, cy, r, z0, z1, segments, i);
        i := i + 1;
      }
    }
  }

  /** After `n` passes, the list holds what it held plus the first `n` segments. */
  ghost predicate CylinderSoFar(start: seq<Triangle>, tris: seq<Triangle>, trig: Trig, cx: real, cy: real, r: real, z0: real, z1: real, segments: int, n: nat)
    requires n <= SegmentCount(segments)
  {
    tris == start + CylinderTriangles(trig, cx, cy, r, z0, z1, segments, n)
  }

  lemma CylinderStep(start: seq<Triangle>, before: seq<Triangle>, after: seq<Triangle>, trig: Trig, cx: real, cy: real, r: real, z0: real, z1: real, segments: int, i: nat)
    requires i < segments
    requires CylinderSoFar(start, before, trig, cx, cy, r, z0, z1, segments, i)
    requires after == before + SegmentTriangles(trig, cx, cy, r, z0, z1, segments, i)
    ensures CylinderSoFar(start, after, trig, cx, cy, r, z0, z1, segments, i + 1)
  {
    assert CylinderTriangles(trig, cx, cy, r, z0, z1, segments, i + 1)
        == CylinderTriangles(trig, cx, cy, r, z0, z1, segments, i) + SegmentTriangles(trig, cx, cy, r, z0, z1, segments, i);
  }

  // ---------------------------------------------------------------------
  // `export_stl_meshes`
  // ---------------------------------------------------------------------

  /** One `write_ascii_stl(tris, name, path)` call: solid name, file name, triangles. */
  datatype Solid = Solid(name: string, file: string, tris: seq<Triangle>)

  /** The dimensions `export_stl_meshes` receives. */
  datatype MeshParams = MeshParams(width: real, height: real, diameter: real, dotHeight: real, baseThickness: real, segments: int)

  /** `f"{part_name}.stl"` */
  function FileName(part: string): (file: string)
    ensures |file| == |part| + 4 && file[..|part|] == part && file[|part|..] == ".stl"
  {
    part + ".stl"
  }

  /** The base tile: one box from the origin to the tile's corner, `base_thickness` tall. */
  function BaseSolid(m: MeshParams): Solid
  {
    Solid("base", FileName("base"), BoxTriangles(0.0, 0.0, m.width, m.height, 0.0, m.baseThickness))
  }

  /** One cylinder per dot, in the order of the dots. */
  function DotsMesh(dots: seq<Dot>, m: MeshParams, trig: Trig): (tris: seq<Triangle>)
    ensures |tris| == |dots| * (4 * SegmentCount(m.segments))
  {
    if dots == [] then []
    else
      var d := dots[|dots| - 1];
      MulStep(|dots|, 4 * SegmentCount(m.segments));
      DotsMesh(dots[..|dots| - 1], m, trig) + DotCylinder(d, m, trig)
  }

  /** The cylinder `_add_cylinder` adds for one dot: radius `diameter / 2`, from the base top up `dot_height`. */
  function DotCylinder(d: Dot, m: MeshParams, trig: Trig): seq<Triangle>
  {
    Cylinder(trig, d.x, d.y, m.diameter / 2.0, m.baseThickness, m.baseThickness + m.dotHeight, m.segments)
  }

  /** Every dot cylinder stands on the base tile and is `dot_height` tall. */
  lemma {:induction false} DotsMeshHeights(dots: seq<Dot>, m: MeshParams, trig: Trig)
    ensures AtHeights(DotsMesh(dots, m, trig), m.baseThickness, m.baseThickness + m.dotHeight)
  {
    if dots != [] {
      var front, d := dots[..|dots| - 1], dots[|dots| - 1];
      var z0, z1 := m.baseThickness, m.baseThickness + m.dotHeight;
      DotsMeshHeights(front, m, trig);
      DotsMeshLast(dots, m, trig);
      AtHeightsAppend(DotsMesh(front, m, trig), DotCylinder(d, m, trig), z0, z1);
    }
  }

  /** A colour's mesh is the mesh of all its dots but the last, then the last dot's cylinder. */
  lemma DotsMeshLast(dots: seq<Dot>, m: MeshParams, trig: Trig)
    requires dots != []
    ensures DotsMesh(dots, m, trig) == DotsMesh(dots[..|dots| - 1], m, trig) + DotCylinder(dots[|dots| - 1], m, trig)
  {
  }

  lemma MulStep(n: nat, k: nat)
    requires n > 0
    ensures n * k == (n - 1) * k + k
  {
  }

  /** The solid written for one colour under its part name. */
  function PartSolid(part: string, cd: ColorDots, m: MeshParams, trig: Trig): Solid
  {
    Solid(part, FileName(part), DotsMesh(cd.dots, m, trig))
  }

  /** `slugify(color_name)` for every colour, in order. */
  function PartNames(coords: Coords): (parts: seq<string>)
    ensures |parts| == |coords|
    ensures forall i :: 0 <= i < |coords| ==> parts[i] == Slugify(coords[i].name)
  {
    seq(|coords|, i requires 0 <= i < |coords| => Slugify(coords[i].name))
  }

  /**
   * The first `n + 1` `write_ascii_stl` calls, in order: the base, then the
   * first `n` colours under their part names.
   */
  ghost predicate WrittenUpTo(written: seq<Solid>, coords: Coords, parts: seq<string>, m: MeshParams, trig: Trig, n: nat)
    requires n <= |coords| == |parts|
  {
    && |written| == n + 1
    && written[0] == BaseSolid(m)
    && forall i :: 0 <= i < n ==> written[i + 1] == PartSolid(parts[i], coords[i], m, trig)
  }

  /**
   * The `files` map after the first `n` colours: `"base"` and the first `n`
   * part names, each mapped to its own file, and nothing else.
   */
  ghost predicate FilesUpTo(files: map<string, string>, parts: seq<string>, n: nat)
    requires n <= |parts|
  {
    && "base" in files
    && (forall i :: 0 <= i < n ==> parts[i] in files)
    && (forall k :: k in files ==> files[k] == FileName(k))
    && (forall k :: k in files ==> k == "base" || exists i :: 0 <= i < n && parts[i] == k)
  }

  /** The mesh of one colour: a cylinder per dot, appended to a fresh list. */
  method DotsTriangles(positions: seq<Dot>, m: MeshParams, trig: Trig) returns (tris: seq<Triangle>)
    ensures tris == DotsMesh(positions, m, trig)
  {
    var radius := m.diameter / 2.0;
    var list := new TriangleList();
    var j := 0;
    while j < |positions|
      invariant 0 <= j <= |positions|
      invariant DotsSoFar(list.tris, positions, m, trig, j)
    {
      ghost var before := list.tris;
      list.AddCylinder(positions[j].x, positions[j].y, radius, m.baseThickness, m.baseThickness + m.dotHeight, m.segments, trig);
      DotsStep(before, list.tris, positions, m, trig, j);
      j := j + 1;
    }
    tris := list.tris;
    DotsDone(tris, positions, m, trig);
  }

  /** The list holds the cylinders of the first `j` dots. */
  ghost predicate DotsSoFar(tris: seq<Triangle>, positions: seq<Dot>, m: MeshParams, trig: Trig, j: nat)
    requires j <= |positions|
  {
    tris == DotsMesh(positions[..j], m, trig)
  }

  lemma DotsDone(tris: seq<Triangle>, positions: seq<Dot>, m: MeshParams, trig: Trig)
    requires DotsSoFar(tris, positions, m, trig, |positions|)
    ensures tris == DotsMesh(positions, m, trig)
  {
    assert positions[..|positions|] == positions;
  }

  lemma DotsStep(before: seq<Triangle>, after: seq<Triangle>, positions: seq<Dot>, m: MeshParams, trig: Trig, j: nat)
    requires j < |positions| && DotsSoFar(before, positions, m, trig, j)
    requires after == before + DotCylinder(positions[j], m, trig)
    ensures DotsSoFar(after, positions, m, trig, j + 1)
  {
    assert positions[..j + 1][..j] == positions[..j];
  }

  lemma WrittenStep(written: seq<Solid>, coords: Coords, parts: seq<string>, m: MeshParams, trig: Trig, i: nat, tris: seq<Triangle>)
    requires i < |coords| == |parts| && WrittenUpTo(written, coords, parts, m, trig, i)
    requires tris == DotsMesh(coords[i].dots, m, trig)
    ensures WrittenUpTo(written + [Solid(parts[i], FileName(parts[i]), tris)], coords, parts, m, trig, i + 1)
  {
    var after := written + [Solid(parts[i], FileName(parts[i]), tris)];
    forall j | 0 <= j < i + 1
      ensures after[j + 1] == PartSolid(parts[j], coords[j], m, trig)
    {
      if j < i {
        assert after[j + 1] == written[j + 1];
      }
    }
  }

  lemma FilesStep(files: map<string, string>, parts: seq<string>, i: nat)
    requires i < |parts| && FilesUpTo(files, parts, i)
    ensures FilesUpTo(files[parts[i] := FileName(parts[i])], parts, i + 1)
  {
  }

  /** `export_stl_meshes`, with each file write recorded as a `Solid`. */
  method ExportStlMeshes(coords: Coords, m: MeshParams, trig: Trig) returns (files: map<string, string>, written: seq<Solid>)
    ensures FilesUpTo(files, PartNames(coords), |coords|)
    ensures WrittenUpTo(written, coords, PartNames(coords), m, trig, |coords|)
  {
    ghost var parts := PartNames(coords);
    var base := new TriangleList();
    base.AddBox(0.0, 0.0, m.width, m.height, 0.0, m.baseThickness);
    written := [Solid("base", FileName("base"), base.tris)];
    files := map["base" := FileName("base")];
    var i := 0;
    while i < |coords|
      invariant 0 <= i <= |coords|
      invariant FilesUpTo(files, parts, i)
      invariant WrittenUpTo(written, coords, parts, m, trig, i)
    {
      var tris := DotsTriangles(coords[i].dots, m, trig);
      var part := Slugify(coords[i].name);
      assert part == parts[i];
      WrittenStep(written, coords, parts, m, trig, i, tris);
      FilesStep(files, parts, i);
      written := written + [Solid(part, FileName(part), tris)];
      files := files[part := FileName(part)];
      i := i + 1;
    }
  }

  /**
   * The sizes of what `export_stl_meshes` writes: twelve triangles for the
   * base tile and `4 * segments` per dot for each colour, every dot vertex
   * on the base top or `dot_height` above it.
   */
  lemma ExportSizes(coords: Coords, parts: seq<string>, m: MeshParams, trig: Trig, written: seq<Solid>)
    requires |coords| == |parts| && WrittenUpTo(written, coords, parts, m, trig, |coords|)
    ensures |written[0].tris| == 12
    ensures forall i :: 1 <= i < |written| ==>
              && |written[i].tris| == |coords[i - 1].dots| * (4 * SegmentCount(m.segments))
              && AtHeights(written[i].tris, m.baseThickness, m.baseThickness + m.dotHeight)
  {
    forall i | 1 <= i < |written|
      ensures |written[i].tris| == |coords[i - 1].dots| * (4 * SegmentCount(m.segments))
      ensures AtHeights(written[i].tris, m.baseThickness, m.baseThickness + m.dotHeight)
    {
      assert written[i] == PartSolid(parts[i - 1], coords[i - 1], m, trig);
      DotsMeshHeights(coords[i - 1].dots, m, trig);
    }
  }

  // ---------------------------------------------------------------------
  // The files on disk afterwards.
  // ---------------------------------------------------------------------

  /** What each file holds once every solid is written: a later write replaces an earlier one. */
  function OnDisk(written: seq<Solid>): (disk: map<string, Solid>)
    ensures forall s :: s in written ==> s.file in disk
    ensures forall f :: f in disk ==> disk[f].file == f && disk[f] in written
  {
    if written == [] then map[]
    else
      var last := written[|written| - 1];
      OnDisk(written[..|written| - 1])[last.file := last]
  }

  /** Each file holds the last solid written to it. */
  lemma {:induction false} LastWriteWins(written: seq<Solid>, n: nat)
    requires n < |written|
    requires forall j :: n < j < |written| ==> written[j].file != written[n].file
    ensures OnDisk(written)[written[n].file] == written[n]
  {
    if n < |written| - 1 {
      LastWriteWins(written[..|written| - 1], n);
    }
  }

  /**
   * A colour whose slug is `base` is written to `base.stl` after the tile,
   * so the file ends up holding the last such colour's dots and not the
   * base tile.
   */
  lemma ColourNamedBaseReplacesTile(coords: Coords, parts: seq<string>, m: MeshParams, trig: Trig, written: seq<Solid>, k: nat)
    requires |coords| == |parts| && WrittenUpTo(written, coords, parts, m, trig, |coords|)
    requires k < |coords| && parts[k] == "base"
    requires forall j :: k < j < |parts| ==> parts[j] != "base"
    ensures OnDisk(written)[FileName("base")] == PartSolid("base", coords[k], m, trig)
  {
    forall j | k + 1 < j < |written|
      ensures written[j].file != written[k + 1].file
    {
      assert written[j].file == FileName(parts[j - 1]);
      FileNameInjective(parts[j - 1], "base");
    }
    LastWriteWins(written, k + 1);
  }

  /** Different part names never share a file. */
  lemma FileNameInjective(a: string, b: string)
    ensures FileName(a) == FileName(b) <==> a == b
  {
    if FileName(a) == FileName(b) {
      assert |a| == |b|;
      assert a == FileName(a)[..|a|] && b == FileName(b)[..|b|];
    }
  }

  /** With no part named `base`, the tile survives in `base.stl`. */
  lemma TileKept(coords: Coords, parts: seq<string>, m: MeshParams, trig: Trig, written: seq<Solid>)
    requires |coords| == |parts| && WrittenUpTo(written, coords, parts, m, trig, |coords|)
    requires forall i :: 0 <= i < |parts| ==> parts[i] != "base"
    ensures OnDisk(written)[FileName("base")] == BaseSolid(m)
  {
    forall j | 0 < j < |written|
      ensures written[j].file != written[0].file
    {
      assert written[j].file == FileName(parts[j - 1]);
      FileNameInjective(parts[j - 1], "base");
    }
    LastWriteWins(written, 0);
  }
}
