/**
 * Palette loading (`load_palette`): a Markdown table of `Name | Hex` rows or
 * already-decoded JSON records become an ordered list of named colours,
 * optionally narrowed to a requested set of names.
 */
module PaletteLoader {
  import opened Wrappers
  import opened Text
  import opened HexColor

  datatype Entry = Entry(name: string, color: Color)

  type Palette = seq<Entry>

  /** One decoded JSON object: its `name` and `hex` fields. */
  datatype HexRecord = HexRecord(name: string, hex: string)

  datatype PaletteSource =
    | MarkdownText(text: string)
    | JsonRecords(records: seq<HexRecord>)

  predicate AllInRange(p: Palette)
  {
    forall k :: 0 <= k < |p| ==> InRange(p[k].color)
  }

  // ---------------------------------------------------------------------
  // The regular expression `#?[0-9A-Fa-f]{6}` and its first match.
  // ---------------------------------------------------------------------

  /** The match of `#?[0-9A-Fa-f]{6}` that starts exactly at `i`, if any. */
  function MatchAt(s: string, i: nat): (m: Option<string>)
    requires i <= |s|
    ensures m.Some? <==> SixHexAt(s, i) || (i < |s| && s[i] == '#' && SixHexAt(s, i + 1))
    ensures m.Some? ==> (m.value == s[i..i + 6] && AllHex(m.value))
                        || (i + 7 <= |s| && m.value == s[i..i + 7] && m.value[0] == '#' && AllHex(m.value[1..]))
  {
    if i + 7 <= |s| && s[i] == '#' && AllHex(s[i + 1..i + 7]) then Some(s[i..i + 7])
    else if i + 6 <= |s| && AllHex(s[i..i + 6]) then Some(s[i..i + 6])
    else None
  }

  /** The leftmost match at or after `i` (`re.findall(...)[0]`). */
  function FirstHexRunFrom(s: string, i: nat): (m: Option<string>)
    requires i <= |s|
    decreases |s| - i
  {
    if i == |s| then None
    else if MatchAt(s, i).Some? then MatchAt(s, i)
    else FirstHexRunFrom(s, i + 1)
  }

  function FirstHexRun(s: string): (m: Option<string>)
    ensures m.Some? ==> (|m.value| == 6 && AllHex(m.value))
                        || (|m.value| == 7 && m.value[0] == '#' && AllHex(m.value[1..]))
  {
    FirstHexRunFromShape(s, 0);
    FirstHexRunFrom(s, 0)
  }

  /** Six hex digits start at `i`. */
  predicate SixHexAt(s: string, i: int)
  {
    0 <= i && i + 6 <= |s| && AllHex(s[i..i + 6])
  }

  /** `s` holds six consecutive hex digits somewhere. */
  ghost predicate HasSixHexRun(s: string)
  {
    exists i :: SixHexAt(s, i)
  }

  lemma {:induction false} FirstHexRunFromShape(s: string, i: nat)
    requires i <= |s|
    ensures FirstHexRunFrom(s, i).Some? <==> exists j :: i <= j && SixHexAt(s, j)
    ensures FirstHexRunFrom(s, i).Some? ==>
              var m := FirstHexRunFrom(s, i).value;
              (|m| == 6 && AllHex(m)) || (|m| == 7 && m[0] == '#' && AllHex(m[1..]))
    decreases |s| - i
  {
    if i < |s| {
      if MatchAt(s, i).Some? {
        if i + 7 <= |s| && s[i] == '#' && AllHex(s[i + 1..i + 7]) {
          assert s[i + 1..i + 7] == s[i..i + 7][1..];
          assert SixHexAt(s, i + 1);
        } else {
          assert SixHexAt(s, i);
        }
      } else {
        FirstHexRunFromShape(s, i + 1);
        if exists j :: i <= j && SixHexAt(s, j) {
          var j :| i <= j && SixHexAt(s, j);
          assert j != i;
        }
      }
    }
  }

  /** The first match is the match at the leftmost position where the pattern matches. */
  lemma {:induction false} FirstHexRunLeftmost(s: string, i: nat)
    requires i <= |s| && FirstHexRunFrom(s, i).Some?
    ensures exists j :: i <= j <= |s| && MatchAt(s, j) == FirstHexRunFrom(s, i) &&
              forall j' :: i <= j' < j ==> MatchAt(s, j').None?
    decreases |s| - i
  {
    if MatchAt(s, i).None? {
      FirstHexRunLeftmost(s, i + 1);
    }
  }

  /** The pattern matches exactly when six hex digits occur in a row. */
  lemma FirstHexRunExists(s: string)
    ensures FirstHexRun(s).Some? <==> HasSixHexRun(s)
  {
    FirstHexRunFromShape(s, 0);
  }

  /** Whatever the pattern matches, `_parse_hex` accepts. */
  lemma MatchParses(s: string)
    requires FirstHexRun(s).Some?
    ensures ParseHex(FirstHexRun(s).value).Success?
  {
    FirstHexRunFromShape(s, 0);
    var m := FirstHexRun(s).value;
    assert !IsSpace(m[0]) && !IsSpace(m[|m| - 1]);
    assert Trim(m) == m;
    assert !IsHash(m[|m| - 6]);
    var t := LStrip(m, IsHash);
    LStripSpec(m, IsHash);
    assert |t| == 6 && t == m[|m| - 6..];
  }

  // ---------------------------------------------------------------------
  // One table line.
  // ---------------------------------------------------------------------

  /** `[p.strip() for p in line.split("|")]` */
  function Cells(line: string): (parts: seq<string>)
    ensures |parts| == |SplitOn(line, '|')|
    ensures parts[0] == Trim(line[..FindChar(line, '|')])
    ensures forall k :: 0 <= k < |parts| ==> parts[k] == Trim(SplitOn(line, '|')[k])
  {
    var raw := SplitOn(line, '|');
    seq(|raw|, k requires 0 <= k < |raw| => Trim(raw[k]))
  }

  /** `[p for p in parts if "#" in p]`, in order. */
  function HashCells(parts: seq<string>): (c: seq<string>)
    ensures forall k :: 0 <= k < |c| ==> '#' in c[k]
    ensures c == [] <==> forall k :: 0 <= k < |parts| ==> '#' !in parts[k]
    ensures c != [] ==> exists k :: 0 <= k < |parts| && c[0] == parts[k] && forall j :: 0 <= j < k ==> '#' !in parts[j]
  {
    if parts == [] then []
    else if '#' in parts[0] then [parts[0]] + HashCells(parts[1..])
    else HashCells(parts[1..])
  }

  /** The filter keeps order: it distributes over concatenation. */
  lemma {:induction false} HashCellsAppend(a: seq<string>, b: seq<string>)
    ensures HashCells(a + b) == HashCells(a) + HashCells(b)
  {
    if a == [] {
      assert a + b == b;
    } else {
      assert (a + b)[0] == a[0];
      assert (a + b)[1..] == a[1..] + b;
      HashCellsAppend(a[1..], b);
    }
  }

  /**
   * The entry one Markdown line contributes, if any: the name is the stripped
   * text before the first `|`, the colour is the first `#?` + six-hex run in
   * the first later cell that contains `#`.
   */
  function ParseRow(line: string): (r: Option<Entry>)
    ensures r.Some? ==> r.value.name == Trim(line[..FindChar(line, '|')])
    ensures r.Some? ==> InRange(r.value.color)
  {
    if '|' !in line then None
    else
      var parts := Cells(line);
      if |parts| < 2 || Lower(parts[0]) == "name" then None
      else
        var candidates := HashCells(parts[1..]);
        if candidates == [] then None
        else
          var run := FirstHexRun(candidates[0]);
          if run.None? then None
          else
            MatchParses(candidates[0]);
            Some(Entry(parts[0], ParseHex(run.value).value))
  }

  /** `parts[k]` is the first cell after the name that contains `#`. */
  predicate FirstHashCell(parts: seq<string>, k: int)
  {
    1 <= k < |parts| && '#' in parts[k] && forall k' :: 1 <= k' < k ==> '#' !in parts[k']
  }

  /** The pattern matches at `j` in `cell` and at no earlier position. */
  predicate LeftmostMatch(cell: string, j: int)
  {
    0 <= j <= |cell| && MatchAt(cell, j).Some? && forall j' :: 0 <= j' < j ==> MatchAt(cell, j').None?
  }

  /**
   * The colour of a kept row: `_parse_hex` of the leftmost match of the
   * pattern in the first cell after the name that contains `#`.
   */
  lemma ParseRowColour(line: string)
    requires ParseRow(line).Some?
    ensures var parts := Cells(line);
            exists k, j :: FirstHashCell(parts, k) && LeftmostMatch(parts[k], j) &&
              ParseHex(MatchAt(parts[k], j).value) == Success(ParseRow(line).value.color)
  {
    var parts := Cells(line);
    RowColourIsFirstRun(line);
    var cell := HashCells(parts[1..])[0];
    var k := FirstHashCellOf(parts);
    FirstHexRunLeftmost(cell, 0);
    var j :| 0 <= j <= |cell| && MatchAt(cell, j) == FirstHexRun(cell) && forall j' :: 0 <= j' < j ==> MatchAt(cell, j').None?;
    assert LeftmostMatch(parts[k], j);
  }

  /** A kept row's colour is what `_parse_hex` makes of the first match in the first `#` cell. */
  lemma RowColourIsFirstRun(line: string)
    requires ParseRow(line).Some?
    ensures '|' in line && |Cells(line)| >= 2
    ensures var c := HashCells(Cells(line)[1..]);
            c != [] && FirstHexRun(c[0]).Some? && ParseHex(FirstHexRun(c[0]).value) == Success(ParseRow(line).value.color)
  {
    MatchParses(HashCells(Cells(line)[1..])[0]);
  }

  /** The head of `HashCells(parts[1..])` is the first `#` cell after the name. */
  lemma FirstHashCellOf(parts: seq<string>) returns (k: nat)
    requires |parts| >= 1 && HashCells(parts[1..]) != []
    ensures FirstHashCell(parts, k) && parts[k] == HashCells(parts[1..])[0]
  {
    var rest := parts[1..];
    var k0 :| 0 <= k0 < |rest| && HashCells(rest)[0] == rest[k0] && forall j :: 0 <= j < k0 ==> '#' !in rest[j];
    k := k0 + 1;
    forall k' | 1 <= k' < k ensures '#' !in parts[k'] {
      assert parts[k'] == rest[k' - 1];
    }
  }

  /** The lines `load_palette` skips, and the ones it keeps. */
  lemma ParseRowKeeps(line: string)
    ensures ParseRow(line).Some? <==>
              && '|' in line
              && Lower(Trim(line[..FindChar(line, '|')])) != "name"
              && HashCells(Cells(line)[1..]) != []
              && HasSixHexRun(HashCells(Cells(line)[1..])[0])
  {
    if '|' in line {
      var parts := Cells(line);
      assert |parts| >= 2;
      var candidates := HashCells(parts[1..]);
      if Lower(parts[0]) != "name" && candidates != [] {
        FirstHexRunExists(candidates[0]);
        if HasSixHexRun(candidates[0]) {
          MatchParses(candidates[0]);
        }
      }
    }
  }

  // ---------------------------------------------------------------------
  // The whole source, then the name filter.
  // ---------------------------------------------------------------------

  /** The entries of the Markdown lines, in line order. */
  function MarkdownEntries(lines: seq<string>): (p: Palette)
    ensures AllInRange(p)
    ensures |p| <= |lines|
  {
    if lines == [] then []
    else
      var front := MarkdownEntries(lines[..|lines| - 1]);
      match ParseRow(lines[|lines| - 1])
      case Some(e) => front + [e]
      case None => front
  }

  /** The JSON records in order; the first invalid colour is the error. */
  function JsonEntries(records: seq<HexRecord>): (r: Result<Palette, PaletteError>)
    ensures r.Success? ==> AllInRange(r.value) && |r.value| == |records|
  {
    if records == [] then Success([])
    else
      var last := records[|records| - 1];
      match JsonEntries(records[..|records| - 1])
      case Failure(e) => Failure(e)
      case Success(front) =>
        match ParseHex(last.hex)
        case Failure(e) => Failure(e)
        case Success(c) => Success(front + [Entry(last.name, c)])
  }

  /** Reading two runs of lines one after the other reads their entries one after the other. */
  lemma {:induction false} MarkdownEntriesAppend(a: seq<string>, b: seq<string>)
    ensures MarkdownEntries(a + b) == MarkdownEntries(a) + MarkdownEntries(b)
    decreases |b|
  {
    if b == [] {
      assert a + b == a;
    } else {
      var b' := b[..|b| - 1];
      assert (a + b)[..|a + b| - 1] == a + b';
      assert (a + b)[|a + b| - 1] == b[|b| - 1];
      MarkdownEntriesAppend(a, b');
    }
  }

  /** The entries of all lines are those of all but the last, then the last line's entry if it has one. */
  lemma MarkdownEntriesLast(lines: seq<string>)
    requires lines != []
    ensures var last := ParseRow(lines[|lines| - 1]);
            MarkdownEntries(lines) == MarkdownEntries(lines[..|lines| - 1]) + (if last.Some? then [last.value] else [])
  {
  }

  /** Every entry read comes from some line that parses to it. */
  lemma {:induction false} MarkdownEntriesFromLines(lines: seq<string>, e: Entry)
    requires e in MarkdownEntries(lines)
    ensures exists k :: 0 <= k < |lines| && ParseRow(lines[k]) == Some(e)
    decreases |lines|
  {
    var n := |lines| - 1;
    var front := lines[..n];
    var last := ParseRow(lines[n]);
    MarkdownEntriesLast(lines);
    if e in MarkdownEntries(front) {
      MarkdownEntriesFromLines(front, e);
      var k :| 0 <= k < |front| && ParseRow(front[k]) == Some(e);
      assert lines[k] == front[k];
    } else {
      assert last == Some(e);
    }
  }

  /** Every line that parses contributes its entry. */
  lemma {:induction false} MarkdownEntriesOfLine(lines: seq<string>, k: nat)
    requires k < |lines| && ParseRow(lines[k]).Some?
    ensures ParseRow(lines[k]).value in MarkdownEntries(lines)
    decreases |lines|
  {
    var n := |lines| - 1;
    var front := lines[..n];
    MarkdownEntriesLast(lines);
    if k < n {
      assert front[k] == lines[k];
      MarkdownEntriesOfLine(front, k);
    } else {
      assert k == n;
    }
  }

  /** An entry is read exactly when some line parses to it. */
  lemma MarkdownEntriesMembers(lines: seq<string>)
    ensures forall e :: e in MarkdownEntries(lines) <==>
              exists k :: 0 <= k < |lines| && ParseRow(lines[k]) == Some(e)
  {
    forall e | e in MarkdownEntries(lines)
      ensures exists k :: 0 <= k < |lines| && ParseRow(lines[k]) == Some(e)
    {
      MarkdownEntriesFromLines(lines, e);
    }
    forall e, k | 0 <= k < |lines| && ParseRow(lines[k]) == Some(e)
      ensures e in MarkdownEntries(lines)
    {
      MarkdownEntriesOfLine(lines, k);
    }
  }

  /** One more record: a failure already met stays; otherwise the record's colour is parsed and appended. */
  lemma JsonEntriesLast(records: seq<HexRecord>)
    requires records != []
    ensures var front := JsonEntries(records[..|records| - 1]);
            var last := records[|records| - 1];
            var c := ParseHex(last.hex);
            && (front.Failure? ==> JsonEntries(records) == front)
            && (front.Success? && c.Failure? ==> JsonEntries(records) == Failure(c.error))
            && (front.Success? && c.Success? ==> JsonEntries(records) == Success(front.value + [Entry(last.name, c.value)]))
  {
  }

  /** The JSON load succeeds exactly when every record's colour parses. */
  lemma JsonEntriesSucceeds(records: seq<HexRecord>)
    ensures JsonEntries(records).Success? <==> forall k :: 0 <= k < |records| ==> ParseHex(records[k].hex).Success?
  {
    if JsonEntries(records).Success? {
      JsonSuccessParsesAll(records);
    }
    if forall k :: 0 <= k < |records| ==> ParseHex(records[k].hex).Success? {
      JsonAllParseSucceeds(records);
    }
  }

  /** A successful JSON load parsed every record's colour. */
  lemma {:induction false} JsonSuccessParsesAll(records: seq<HexRecord>)
    requires JsonEntries(records).Success?
    ensures forall k :: 0 <= k < |records| ==> ParseHex(records[k].hex).Success?
    decreases |records|
  {
    if records != [] {
      var n := |records| - 1;
      var front := records[..n];
      JsonEntriesLast(records);
      assert JsonEntries(front).Success? && ParseHex(records[n].hex).Success?;
      JsonSuccessParsesAll(front);
      ParsesAllAppend(records, front);
    }
  }

  /** Records before the last one that all parse, and a last one that parses, all parse. */
  lemma ParsesAllAppend(records: seq<HexRecord>, front: seq<HexRecord>)
    requires records != [] && front == records[..|records| - 1]
    requires forall k :: 0 <= k < |front| ==> ParseHex(front[k].hex).Success?
    requires ParseHex(records[|records| - 1].hex).Success?
    ensures forall k :: 0 <= k < |records| ==> ParseHex(records[k].hex).Success?
  {
    forall k | 0 <= k < |records| ensures ParseHex(records[k].hex).Success? {
      if k < |front| {
        assert front[k] == records[k];
      }
    }
  }

  /** When every record's colour parses, the JSON load succeeds. */
  lemma {:induction false} JsonAllParseSucceeds(records: seq<HexRecord>)
    requires forall k :: 0 <= k < |records| ==> ParseHex(records[k].hex).Success?
    ensures JsonEntries(records).Success?
    decreases |records|
  {
    if records != [] {
      var n := |records| - 1;
      var front := records[..n];
      assert forall k :: 0 <= k < n ==> front[k] == records[k];
      JsonAllParseSucceeds(front);
      JsonEntriesLast(records);
    }
  }

  /** A successful JSON load holds each record's name with its parsed colour, in record order. */
  lemma {:induction false} JsonEntriesValues(records: seq<HexRecord>)
    requires JsonEntries(records).Success?
    ensures forall k :: 0 <= k < |records| ==>
              JsonEntries(records).value[k].name == records[k].name &&
              Success(JsonEntries(records).value[k].color) == ParseHex(records[k].hex)
    decreases |records|
  {
    if records != [] {
      var n := |records| - 1;
      var front := records[..n];
      JsonEntriesLast(records);
      var p := JsonEntries(front).value;
      var c := ParseHex(records[n].hex);
      JsonEntriesValues(front);
      JsonValuesAppend(records, front, p, c.value);
    }
  }

  /** Entries that match the records before the last one, plus the last record's entry, match all the records. */
  lemma JsonValuesAppend(records: seq<HexRecord>, front: seq<HexRecord>, p: Palette, c: Color)
    requires records != [] && front == records[..|records| - 1] && |p| == |front|
    requires forall k :: 0 <= k < |front| ==> p[k].name == front[k].name && Success(p[k].color) == ParseHex(front[k].hex)
    requires Success(c) == ParseHex(records[|records| - 1].hex)
    ensures var r := p + [Entry(records[|records| - 1].name, c)];
            forall k :: 0 <= k < |records| ==> r[k].name == records[k].name && Success(r[k].color) == ParseHex(records[k].hex)
  {
    var r := p + [Entry(records[|records| - 1].name, c)];
    forall k | 0 <= k < |records|
      ensures r[k].name == records[k].name && Success(r[k].color) == ParseHex(records[k].hex)
    {
      if k < |p| {
        assert r[k] == p[k] && front[k] == records[k];
      }
    }
  }

  /** A failed JSON load carries the error of the first record whose colour does not parse. */
  lemma {:induction false} JsonEntriesFirstError(records: seq<HexRecord>)
    requires JsonEntries(records).Failure?
    ensures exists k :: 0 <= k < |records| && ParseHex(records[k].hex) == Failure(JsonEntries(records).error) &&
              forall k' :: 0 <= k' < k ==> ParseHex(records[k'].hex).Success?
    decreases |records|
  {
    var n := |records| - 1;
    var front := records[..n];
    JsonEntriesLast(records);
    if JsonEntries(front).Failure? {
      JsonEntriesFirstError(front);
      var k :| 0 <= k < |front| && ParseHex(front[k].hex) == Failure(JsonEntries(front).error) &&
        forall k' :: 0 <= k' < k ==> ParseHex(front[k'].hex).Success?;
      assert JsonEntries(records).error == JsonEntries(front).error;
      FirstErrorInPrefix(records, front, k, JsonEntries(front).error);
    } else {
      assert ParseHex(records[n].hex) == Failure(JsonEntries(records).error);
      JsonSuccessParsesAll(front);
      FirstErrorInPrefix(records, front, n, JsonEntries(records).error);
    }
  }

  /** What holds of the first `k` records before the last one holds of the first `k` records. */
  lemma FirstErrorInPrefix(records: seq<HexRecord>, front: seq<HexRecord>, k: nat, e: PaletteError)
    requires records != [] && front == records[..|records| - 1] && k < |records|
    requires k < |front| ==> ParseHex(front[k].hex) == Failure(e)
    requires k == |front| ==> ParseHex(records[k].hex) == Failure(e)
    requires forall k' :: 0 <= k' < k ==> ParseHex(front[k'].hex).Success?
    ensures ParseHex(records[k].hex) == Failure(e)
    ensures forall k' :: 0 <= k' < k ==> ParseHex(records[k'].hex).Success?
  {
    if k < |front| {
      assert front[k] == records[k];
    }
    forall k' | 0 <= k' < k ensures ParseHex(records[k'].hex).Success? {
      assert front[k'] == records[k'];
    }
  }

  /** `{s.lower() for s in select}` */
  function Requested(select: seq<string>): (wanted: set<string>)
    ensures forall k :: 0 <= k < |select| ==> Lower(select[k]) in wanted
    ensures forall w :: w in wanted ==> exists k :: 0 <= k < |select| && w == Lower(select[k])
    ensures wanted == {} <==> select == []
  {
    var wanted := set k | 0 <= k < |select| :: Lower(select[k]);
    assert select != [] ==> Lower(select[0]) in wanted;
    wanted
  }

  /** `[(n, c) for n, c in colors if n.lower() in wanted]` */
  function FilterSelected(colors: Palette, wanted: set<string>): (r: Palette)
    ensures forall e :: e in r <==> e in colors && Lower(e.name) in wanted
    ensures |r| <= |colors|
  {
    if colors == [] then []
    else if Lower(colors[0].name) in wanted then [colors[0]] + FilterSelected(colors[1..], wanted)
    else FilterSelected(colors[1..], wanted)
  }

  function Parsed(source: PaletteSource): (r: Result<Palette, PaletteError>)
    ensures source.MarkdownText? ==> r.Success?
    ensures r.Success? ==> AllInRange(r.value)
    ensures source.JsonRecords? && r.Success? ==> |r.value| == |source.records|
  {
    match source
    case MarkdownText(text) => Success(MarkdownEntries(SplitLines(text)))
    case JsonRecords(records) => JsonEntries(records)
  }

  /** The entries `load_palette` keeps of a parsed palette: all of them, or the requested ones when `select` is non-empty. */
  function Selected(all: Palette, select: Option<seq<string>>): Palette
  {
    if select.Some? && select.value != [] then FilterSelected(all, Requested(select.value)) else all
  }

  /**
   * What `load_palette` returns or raises: a parse error as it is; otherwise
   * the selected entries, or the empty-palette error exactly when none is left.
   */
  function Load(source: PaletteSource, select: Option<seq<string>>): (r: Result<Palette, PaletteError>)
    ensures r.Success? ==> r.value != [] && AllInRange(r.value)
    ensures r.Failure? && source.MarkdownText? ==> r.error == EmptyPalette
    ensures Parsed(source).Failure? ==> r == Failure(Parsed(source).error)
    ensures Parsed(source).Success? ==>
              var sel := Selected(Parsed(source).value, select);
              && (r.Failure? <==> sel == [])
              && (r.Failure? ==> r.error == EmptyPalette)
              && (r.Success? ==> r.value == sel)
  {
    match Parsed(source)
    case Failure(e) => Failure(e)
    case Success(all) =>
      var colors := Selected(all, select);
      if colors == [] then Failure(EmptyPalette) else Success(colors)
  }

  /**
   * A successful load holds exactly the parsed entries whose lower-cased
   * name was requested, or all parsed entries when nothing was requested.
   */
  lemma LoadMembers(source: PaletteSource, select: Option<seq<string>>)
    requires Load(source, select).Success?
    ensures Parsed(source).Success?
    ensures forall e :: e in Load(source, select).value <==>
              e in Parsed(source).value && (select.None? || select.value == [] || Lower(e.name) in Requested(select.value))
  {
  }

  /** The selection keeps the parsed palette's order: selecting from two runs of entries selects from each, in turn. */
  lemma SelectedKeepsOrder(a: Palette, b: Palette, select: Option<seq<string>>)
    ensures Selected(a + b, select) == Selected(a, select) + Selected(b, select)
  {
    if select.Some? && select.value != [] {
      FilterKeepsSourceOrder(a, b, Requested(select.value));
    }
  }

  /** The Markdown branch of `load_palette`: one append per kept line. */
  method MarkdownColors(lines: seq<string>) returns (colors: Palette)
    ensures colors == MarkdownEntries(lines)
  {
    colors := [];
    var i := 0;
    while i < |lines|
      invariant 0 <= i <= |lines|
      invariant colors == MarkdownEntries(lines[..i])
    {
      assert lines[..i + 1][..i] == lines[..i];
      var row := ParseRow(lines[i]);
      if row.Some? {
        colors := colors + [row.value];
      }
      i := i + 1;
    }
    assert lines[..i] == lines;
  }

  /** The JSON branch: one append per record, stopping at the first bad colour. */
  method JsonColors(records: seq<HexRecord>) returns (r: Result<Palette, PaletteError>)
    ensures r == JsonEntries(records)
  {
    var colors: Palette := [];
    var i := 0;
    while i < |records|
      invariant 0 <= i <= |records|
      invariant JsonEntries(records[..i]) == Success(colors)
    {
      assert records[..i + 1][..i] == records[..i];
      var c := ParseHex(records[i].hex);
      if c.Failure? {
        JsonFailureSticks(records, i + 1);
        return Failure(c.error);
      }
      colors := colors + [Entry(records[i].name, c.value)];
      i := i + 1;
    }
    assert records[..i] == records;
    return Success(colors);
  }

  /** `load_palette` on text that has already been read. */
  method LoadPalette(source: PaletteSource, select: Option<seq<string>>) returns (r: Result<Palette, PaletteError>)
    ensures r == Load(source, select)
  {
    var colors: Palette;
    match source {
      case MarkdownText(text) =>
        colors := MarkdownColors(SplitLines(text));
      case JsonRecords(records) =>
        var parsed := JsonColors(records);
        if parsed.Failure? {
          return Failure(parsed.error);
        }
        colors := parsed.value;
    }
    if select.Some? && select.value != [] {
      colors := FilterSelected(colors, Requested(select.value));
    }
    if colors == [] {
      return Failure(EmptyPalette);
    }
    return Success(colors);
  }

  /** Once a record fails, the records after it do not matter. */
  lemma {:induction false} JsonFailureSticks(records: seq<HexRecord>, n: nat)
    requires 0 < n <= |records|
    requires JsonEntries(records[..n]).Failure?
    ensures JsonEntries(records) == JsonEntries(records[..n])
    decreases |records| - n
  {
    if n < |records| {
      assert records[..n + 1][..n] == records[..n];
      JsonFailureSticks(records, n + 1);
    } else {
      assert records[..n] == records;
    }
  }

  /** The filter keeps source order: it distributes over concatenation. */
  lemma {:induction false} FilterKeepsSourceOrder(a: Palette, b: Palette, wanted: set<string>)
    ensures FilterSelected(a + b, wanted) == FilterSelected(a, wanted) + FilterSelected(b, wanted)
  {
    if a == [] {
      assert a + b == b;
    } else {
      assert (a + b)[0] == a[0];
      assert (a + b)[1..] == a[1..] + b;
      FilterKeepsSourceOrder(a[1..], b, wanted);
    }
  }

  /** A requested name that matches no entry changes nothing. */
  lemma UnknownNameDropped(source: PaletteSource, select: seq<string>, extra: string)
    requires select != []
    requires Parsed(source).Success?
    requires forall e :: e in Parsed(source).value ==> Lower(e.name) != Lower(extra)
    ensures Load(source, Some(select + [extra])) == Load(source, Some(select))
  {
    var all := Parsed(source).value;
    var w := Requested(select);
    var w' := Requested(select + [extra]);
    assert w' == w + {Lower(extra)} by {
      assert (select + [extra])[|select|] == extra;
      forall x | x in w' ensures x in w + {Lower(extra)} {
        var k :| 0 <= k < |select| + 1 && x == Lower((select + [extra])[k]);
        if k < |select| { assert (select + [extra])[k] == select[k]; }
      }
      forall x | x in w ensures x in w' {
        var k :| 0 <= k < |select| && x == Lower(select[k]);
        assert (select + [extra])[k] == select[k];
      }
    }
    FilterIgnoresUnmatched(all, w, Lower(extra));
  }

  lemma {:induction false} FilterIgnoresUnmatched(colors: Palette, wanted: set<string>, x: string)
    requires forall e :: e in colors ==> Lower(e.name) != x
    ensures FilterSelected(colors, wanted + {x}) == FilterSelected(colors, wanted)
  {
    if colors != [] {
      assert colors[0] in colors;
      FilterIgnoresUnmatched(colors[1..], wanted, x);
    }
  }

  /** A request that matches nothing at all is the empty-palette error. */
  lemma OnlyUnknownNamesFail(source: PaletteSource, select: seq<string>)
    requires select != []
    requires Parsed(source).Success?
    requires forall e :: e in Parsed(source).value ==> Lower(e.name) !in Requested(select)
    ensures Load(source, Some(select)) == Failure(EmptyPalette)
  {
  }
}
