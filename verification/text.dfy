/**
 * Character classes and the Python string operations the pipeline relies on:
 * `str.strip`, `str.lstrip(chars)`, `str.lower`, `str.split(sep)` and
 * `str.splitlines`, each written out over `seq<char>`.
 */
module Text {

  /** Python's `str.isspace`: the characters `str.strip()` removes. */
  predicate IsSpace(c: char)
  {
    var n := c as int;
    (0x09 <= n <= 0x0D) || (0x1C <= n <= 0x20) || n == 0x85 || n == 0xA0 ||
    n == 0x1680 || (0x2000 <= n <= 0x200A) || n == 0x2028 || n == 0x2029 ||
    n == 0x202F || n == 0x205F || n == 0x3000
  }

  /** The line boundaries recognised by Python's `str.splitlines`. */
  predicate IsLineBreak(c: char)
  {
    var n := c as int;
    (0x0A <= n <= 0x0D) || (0x1C <= n <= 0x1E) || n == 0x85 || n == 0x2028 || n == 0x2029
  }

  predicate IsHexDigit(c: char)
  {
    ('0' <= c <= '9') || ('a' <= c <= 'f') || ('A' <= c <= 'F')
  }

  predicate AllHex(s: string)
  {
    forall i :: 0 <= i < |s| ==> IsHexDigit(s[i])
  }

  /** The value of one hexadecimal digit, either case. */
  function HexValue(c: char): (v: nat)
    requires IsHexDigit(c)
    ensures v < 16
  {
    if '0' <= c <= '9' then (c - '0') as nat
    else if 'a' <= c <= 'f' then (c - 'a') as nat + 10
    else (c - 'A') as nat + 10
  }

  /** The upper-case digit `%X` prints for a value below 16. */
  function UpperHexDigit(v: nat): (c: char)
    requires v < 16
    ensures IsHexDigit(c) && HexValue(c) == v
    ensures !('a' <= c <= 'f')
  {
    if v < 10 then ('0' as int + v) as char else ('A' as int + v - 10) as char
  }

  /** Removes every leading character that `drop` accepts (`str.lstrip`). */
  function LStrip(s: string, drop: char -> bool): (r: string)
    ensures |r| <= |s|
  {
    if s != [] && drop(s[0]) then LStrip(s[1..], drop) else s
  }

  /**
   * `LStrip` leaves a suffix of its input that does not start with a dropped
   * character, and every character it removed is dropped.
   */
  lemma {:induction false} LStripSpec(s: string, drop: char -> bool)
    ensures var r := LStrip(s, drop);
            && r == s[|s| - |r|..]
            && (r != [] ==> !drop(r[0]))
            && (forall i :: 0 <= i < |s| - |r| ==> drop(s[i]))
  {
    if s != [] && drop(s[0]) {
      var t := s[1..];
      LStripSpec(t, drop);
      var r := LStrip(t, drop);
      assert LStrip(s, drop) == r;
      assert t[|t| - |r|..] == s[|s| - |r|..];
      forall i | 0 <= i < |s| - |r|
        ensures drop(s[i])
      {
        if i > 0 {
          assert s[i] == t[i - 1];
        }
      }
    }
  }

  /** Removes every trailing character that `drop` accepts (`str.rstrip`). */
  function RStrip(s: string, drop: char -> bool): (r: string)
    ensures |r| <= |s|
  {
    if s != [] && drop(s[|s| - 1]) then RStrip(s[..|s| - 1], drop) else s
  }

  /**
   * `RStrip` leaves a prefix of its input that does not end with a dropped
   * character, and every character it removed is dropped.
   */
  lemma {:induction false} RStripSpec(s: string, drop: char -> bool)
    ensures var r := RStrip(s, drop);
            && r == s[..|r|]
            && (r != [] ==> !drop(r[|r| - 1]))
            && (forall i :: |r| <= i < |s| ==> drop(s[i]))
  {
    if s != [] && drop(s[|s| - 1]) {
      RStripSpec(s[..|s| - 1], drop);
      var r := RStrip(s, drop);
      assert s[..|s| - 1][..|r|] == s[..|r|];
      forall i | |r| <= i < |s|
        ensures drop(s[i])
      {
        if i < |s| - 1 {
          assert s[i] == s[..|s| - 1][i];
        }
      }
    }
  }

  /** `str.strip` with a character class: both ends. */
  function Strip(s: string, drop: char -> bool): (r: string)
    ensures |r| <= |s|
    ensures r != [] ==> !drop(r[0]) && !drop(r[|r| - 1])
  {
    LStripSpec(s, drop);
    RStripSpec(LStrip(s, drop), drop);
    RStrip(LStrip(s, drop), drop)
  }

  /**
   * `strip` removes a run of dropped characters from each end and keeps the
   * middle as it is.
   */
  lemma StripSpec(s: string, drop: char -> bool)
    ensures var r, a := Strip(s, drop), |s| - |LStrip(s, drop)|;
            && a + |r| <= |s| && r == s[a..a + |r|]
            && (forall i :: 0 <= i < a ==> drop(s[i]))
            && (forall i :: a + |r| <= i < |s| ==> drop(s[i]))
  {
    var l := LStrip(s, drop);
    var r := Strip(s, drop);
    LStripSpec(s, drop);
    RStripSpec(l, drop);
    var a := |s| - |l|;
    assert r == l[..|r|];
    assert r == s[a..a + |r|];
    forall i | a + |r| <= i < |s| ensures drop(s[i]) {
      assert s[i] == l[i - a];
    }
  }

  /** `str.strip()` with no argument. */
  function Trim(s: string): (r: string)
    ensures |r| <= |s|
    ensures r != [] ==> !IsSpace(r[0]) && !IsSpace(r[|r| - 1])
  {
    Strip(s, IsSpace)
  }

  function LowerChar(c: char): char
  {
    if 'A' <= c <= 'Z' then (c as int + 32) as char else c
  }

  /** `str.lower`, for the ASCII letters. */
  function Lower(s: string): (r: string)
    ensures |r| == |s|
    ensures forall i :: 0 <= i < |s| ==> r[i] == LowerChar(s[i])
  {
    seq(|s|, i requires 0 <= i < |s| => LowerChar(s[i]))
  }

  /** Position of the first `c` in `s`, or `|s|` when there is none. */
  function FindChar(s: string, c: char): (i: nat)
    ensures i <= |s|
    ensures i < |s| ==> s[i] == c
    ensures forall j :: 0 <= j < i ==> s[j] != c
  {
    if s == [] then 0
    else if s[0] == c then 0
    else 1 + FindChar(s[1..], c)
  }

  /** `s.split(sep)` for a one-character separator. */
  function SplitOn(s: string, sep: char): (parts: seq<string>)
    ensures |parts| >= 1
    ensures parts[0] == s[..FindChar(s, sep)]
    ensures sep in s ==> |parts| >= 2
    ensures forall k :: 0 <= k < |parts| ==> sep !in parts[k]
    decreases |s|
  {
    var i := FindChar(s, sep);
    if i == |s| then [s]
    else [s[..i]] + SplitOn(s[i + 1..], sep)
  }

  /** `sep.join(parts)` */
  function Join(parts: seq<string>, sep: char): (s: string)
  {
    if parts == [] then []
    else if |parts| == 1 then parts[0]
    else parts[0] + [sep] + Join(parts[1..], sep)
  }

  /** Splitting and joining again gives the text back. */
  lemma {:induction false} SplitOnJoin(s: string, sep: char)
    ensures Join(SplitOn(s, sep), sep) == s
    decreases |s|
  {
    var i := FindChar(s, sep);
    if i < |s| {
      SplitOnJoin(s[i + 1..], sep);
      JoinStep(s, i, sep, SplitOn(s[i + 1..], sep));
    }
  }

  /** The text before a separator, joined to parts that rebuild the text after it, rebuilds the text. */
  lemma JoinStep(s: string, i: nat, sep: char, rest: seq<string>)
    requires i < |s| && s[i] == sep && rest != [] && Join(rest, sep) == s[i + 1..]
    ensures Join([s[..i]] + rest, sep) == s
  {
    var parts := [s[..i]] + rest;
    assert parts[0] == s[..i] && parts[1..] == rest;
    ThreeSlices(s, i, i + 1);
    assert s[i..i + 1] == [sep];
  }

  /** Position of the first line boundary in `s`, or `|s|`. */
  function FindLineBreak(s: string): (i: nat)
    ensures i <= |s|
    ensures i < |s| ==> IsLineBreak(s[i])
    ensures forall j :: 0 <= j < i ==> !IsLineBreak(s[j])
  {
    if s == [] then 0
    else if IsLineBreak(s[0]) then 0
    else 1 + FindLineBreak(s[1..])
  }

  /** Where the text resumes after the boundary at `i`: `"\r\n"` counts as one. */
  function BreakEnd(s: string, i: nat): (next: nat)
    requires i < |s|
    ensures i < next <= |s|
  {
    if s[i] == '\r' && i + 1 < |s| && s[i + 1] == '\n' then i + 2 else i + 1
  }

  /**
   * `str.splitlines()`: lines without their terminators; "\r\n" is one
   * boundary, and a final terminator does not start an empty last line.
   */
  function SplitLines(s: string): (lines: seq<string>)
    ensures forall k, j :: 0 <= k < |lines| && 0 <= j < |lines[k]| ==> !IsLineBreak(lines[k][j])
    ensures s == [] <==> lines == []
    decreases |s|
  {
    if s == [] then []
    else
      var i := FindLineBreak(s);
      if i == |s| then [s]
      else
        var next := BreakEnd(s, i);
        [s[..i]] + SplitLines(s[next..])
  }

  /** A line terminator `splitlines` recognises: `"\r\n"` or one boundary character. */
  predicate IsTerminator(t: string)
  {
    t == "\r\n" || (|t| == 1 && IsLineBreak(t[0]))
  }

  /** The terminator that ends each line of `SplitLines(s)`; the last may be empty. */
  function LineEnds(s: string): (ends: seq<string>)
    decreases |s|
  {
    if s == [] then []
    else
      var i := FindLineBreak(s);
      if i == |s| then [""]
      else
        var next := BreakEnd(s, i);
        [s[i..next]] + LineEnds(s[next..])
  }

  /** Each line followed by its terminator, all concatenated. */
  function Rejoin(lines: seq<string>, ends: seq<string>): string
    requires |lines| == |ends|
  {
    if lines == [] then [] else lines[0] + ends[0] + Rejoin(lines[1..], ends[1..])
  }

  /**
   * `splitlines` cuts the text at its terminators: the lines, each followed
   * by its terminator, give the text back; every terminator but the last is
   * a real one, the last is one or empty, and a `"\r"` is never followed by
   * `"\n"` (that pair is one terminator).
   */
  lemma SplitLinesRejoin(s: string)
    ensures var lines, ends := SplitLines(s), LineEnds(s);
            && |ends| == |lines|
            && Rejoin(lines, ends) == s
            && (forall k :: 0 <= k < |ends| - 1 ==> IsTerminator(ends[k]))
            && (ends != [] ==> ends[|ends| - 1] == "" || IsTerminator(ends[|ends| - 1]))
            && (forall k :: 0 <= k < |ends| - 1 && ends[k] == "\r" ==>
                  !(lines[k + 1] == "" && ends[k + 1] != "" && ends[k + 1][0] == '\n'))
            && (lines != [] && ends[|ends| - 1] == "" ==> lines[|lines| - 1] != "")
  {
    LinesRejoin(s);
    EndsAreTerminators(s);
    CrNotBeforeLf(s);
    NoEmptyLastLine(s);
  }

  /** A final terminator does not start an empty last line: a line without a terminator is never empty. */
  lemma {:induction false} NoEmptyLastLine(s: string)
    ensures var lines, ends := SplitLines(s), LineEnds(s);
            |ends| == |lines| && (lines != [] && ends[|ends| - 1] == "" ==> lines[|lines| - 1] != "")
    decreases |s|
  {
    LinesRejoin(s);
    if s != [] && FindLineBreak(s) < |s| {
      var next := BreakEnd(s, FindLineBreak(s));
      LinesStep(s);
      NoEmptyLastLine(s[next..]);
    }
  }

  /** One line and its terminator, then the rest of the text. */
  lemma LinesStep(s: string)
    requires s != [] && FindLineBreak(s) < |s|
    ensures var i := FindLineBreak(s);
            var next := BreakEnd(s, i);
            && SplitLines(s) == [s[..i]] + SplitLines(s[next..])
            && LineEnds(s) == [s[i..next]] + LineEnds(s[next..])
            && s == s[..i] + s[i..next] + s[next..]
  {
    ThreeSlices(s, FindLineBreak(s), BreakEnd(s, FindLineBreak(s)));
  }

  /** Cutting a text at two points and concatenating the pieces gives it back. */
  lemma ThreeSlices(s: string, i: nat, j: nat)
    requires i <= j <= |s|
    ensures s == s[..i] + s[i..j] + s[j..]
  {
    assert s[..i] + s[i..j] == s[..j];
  }

  /** The lines, each followed by the boundary that ended it, give back the text. */
  lemma {:induction false} LinesRejoin(s: string)
    ensures |LineEnds(s)| == |SplitLines(s)|
    ensures Rejoin(SplitLines(s), LineEnds(s)) == s
    decreases |s|
  {
    if s != [] && FindLineBreak(s) < |s| {
      var i := FindLineBreak(s);
      var next := BreakEnd(s, i);
      LinesStep(s);
      LinesRejoin(s[next..]);
      var lines, ends := SplitLines(s), LineEnds(s);
      assert lines[1..] == SplitLines(s[next..]) && ends[1..] == LineEnds(s[next..]);
    }
  }

  /** The boundary that starts at a line-break character is a terminator. */
  lemma TerminatorAt(s: string, i: nat)
    requires i < |s| && IsLineBreak(s[i])
    ensures IsTerminator(s[i..BreakEnd(s, i)])
  {
    if BreakEnd(s, i) == i + 2 {
      assert s[i..i + 2] == "\r\n";
    }
  }

  /** Every boundary is `\r\n` or one line-break character; only the last line may end without one. */
  lemma {:induction false} EndsAreTerminators(s: string)
    ensures var ends := LineEnds(s);
            && (forall k :: 0 <= k < |ends| - 1 ==> IsTerminator(ends[k]))
            && (ends != [] ==> ends[|ends| - 1] == "" || IsTerminator(ends[|ends| - 1]))
    decreases |s|
  {
    if s != [] && FindLineBreak(s) < |s| {
      var i := FindLineBreak(s);
      var next := BreakEnd(s, i);
      LinesStep(s);
      EndsAreTerminators(s[next..]);
      TerminatorAt(s, i);
      TerminatorsCons(s[i..next], LineEnds(s[next..]));
    }
  }

  /** Terminators, all but possibly an empty last one, stay so with one more terminator in front. */
  lemma TerminatorsCons(t: string, rest: seq<string>)
    requires IsTerminator(t)
    requires forall k :: 0 <= k < |rest| - 1 ==> IsTerminator(rest[k])
    requires rest != [] ==> rest[|rest| - 1] == "" || IsTerminator(rest[|rest| - 1])
    ensures var ends := [t] + rest;
            && (forall k :: 0 <= k < |ends| - 1 ==> IsTerminator(ends[k]))
            && (ends[|ends| - 1] == "" || IsTerminator(ends[|ends| - 1]))
  {
    var ends := [t] + rest;
    assert forall k :: 1 <= k < |ends| ==> ends[k] == rest[k - 1];
  }

  /** A `\r` boundary is never directly followed by a `\n` boundary: `\r\n` is one boundary. */
  lemma {:induction false} CrNotBeforeLf(s: string)
    ensures var lines, ends := SplitLines(s), LineEnds(s);
            |ends| == |lines| &&
            forall k :: 0 <= k < |ends| - 1 && ends[k] == "\r" ==>
              !(lines[k + 1] == "" && ends[k + 1] != "" && ends[k + 1][0] == '\n')
    decreases |s|
  {
    LinesRejoin(s);
    if s != [] && FindLineBreak(s) < |s| {
      var i := FindLineBreak(s);
      var next := BreakEnd(s, i);
      var rest := s[next..];
      LinesStep(s);
      CrNotBeforeLf(rest);
      LinesRejoin(rest);
      var lines, ends := SplitLines(s), LineEnds(s);
      assert lines[1..] == SplitLines(rest) && ends[1..] == LineEnds(rest);
      if ends[0] == "\r" && |ends| > 1 && lines[1] == "" && ends[1] != "" {
        LinesStep(rest);
        assert rest[0] == ends[1][0];
      }
    }
  }
}
