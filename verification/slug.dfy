/**
 * `slugify`: lower-case the name, replace every run of characters outside
 * `[a-z0-9]` by one `-`, then strip `-` from both ends. The slug names the
 * SVG groups, the mask files and the STL parts.
 */
module Slug {
  import opened Text

  predicate IsSlugChar(c: char)
  {
    ('a' <= c <= 'z') || ('0' <= c <= '9')
  }

  predicate NotSlugChar(c: char)
  {
    !IsSlugChar(c)
  }

  predicate IsDash(c: char)
  {
    c == '-'
  }

  /** Only `[a-z0-9-]`, and never two dashes in a row. */
  predicate Collapsed(s: string)
  {
    && (forall i :: 0 <= i < |s| ==> IsSlugChar(s[i]) || s[i] == '-')
    && (forall i :: 0 <= i < |s| - 1 ==> !(s[i] == '-' && s[i + 1] == '-'))
  }

  /** What `slugify` promises of its output. */
  predicate IsSlug(s: string)
  {
    Collapsed(s) && (s != [] ==> s[0] != '-' && s[|s| - 1] != '-')
  }

  /** Stripping a leading run that starts with a dropped character shortens the text. */
  lemma LStripShortens(s: string, drop: char -> bool)
    requires s != [] && drop(s[0])
    ensures |LStrip(s, drop)| < |s|
  {
  }

  /** `re.sub(r"[^a-z0-9]+", "-", s)`: each maximal run of other characters becomes one `-`. */
  function Dashes(s: string): (r: string)
    ensures Collapsed(r)
    ensures s != [] && IsSlugChar(s[0]) ==> r != [] && r[0] == s[0]
    ensures s != [] ==> r != []
    decreases |s|
  {
    if s == [] then []
    else if IsSlugChar(s[0]) then [s[0]] + Dashes(s[1..])
    else
      var rest := LStrip(s, NotSlugChar);
      LStripShortens(s, NotSlugChar);
      LStripSpec(s, NotSlugChar);
      ['-'] + Dashes(rest)
  }

  /** `slugify(name)` for names whose upper-case letters are ASCII. */
  function Slugify(name: string): (slug: string)
    ensures IsSlug(slug)
  {
    StripCollapsed(Dashes(Lower(name)));
    Strip(Dashes(Lower(name)), IsDash)
  }

  /** A slice of collapsed text is collapsed. */
  lemma CollapsedSlice(s: string, a: nat, b: nat)
    requires Collapsed(s) && a <= b <= |s|
    ensures Collapsed(s[a..b])
  {
    var t := s[a..b];
    forall i | 0 <= i < |t| - 1
      ensures !(t[i] == '-' && t[i + 1] == '-')
    {
      assert t[i] == s[a + i] && t[i + 1] == s[a + i + 1];
    }
  }

  /** Stripping the end dashes of collapsed text leaves a slug. */
  lemma StripCollapsed(d: string)
    requires Collapsed(d)
    ensures IsSlug(Strip(d, IsDash))
  {
    var l := LStrip(d, IsDash);
    var r := RStrip(l, IsDash);
    LStripSpec(d, IsDash);
    RStripSpec(l, IsDash);
    CollapsedSlice(d, |d| - |l|, |d|);
    CollapsedSlice(l, 0, |r|);
    if r != [] {
      assert r[0] == l[0];
    }
  }
  /** Lower-casing leaves slug text alone. */
  lemma LowerOfSlugText(s: string)
    requires Collapsed(s)
    ensures Lower(s) == s
  {
  }

  /** Collapsed text has no run of two or more non-slug characters to shorten. */
  lemma {:induction false} DashesOfCollapsed(s: string)
    requires Collapsed(s)
    ensures Dashes(s) == s
    decreases |s|
  {
    if s != [] {
      CollapsedSlice(s, 1, |s|);
      if IsSlugChar(s[0]) {
        DashesOfCollapsed(s[1..]);
      } else {
        var rest := LStrip(s, NotSlugChar);
        if |s| > 1 {
          assert s[1] != '-' && IsSlugChar(s[1]);
          assert LStrip(s[1..], NotSlugChar) == s[1..];
        }
        assert rest == s[1..];
        DashesOfCollapsed(s[1..]);
      }
    }
  }

  /** Text without a dash at either end survives `strip("-")`. */
  lemma StripOfSlug(s: string)
    requires IsSlug(s)
    ensures Strip(s, IsDash) == s
  {
    if s != [] {
      assert LStrip(s, IsDash) == s;
    }
  }

  /** The `[a-z0-9]` characters of `s`, in order. */
  function SlugChars(s: string): (r: string)
    ensures |r| <= |s|
    ensures forall i :: 0 <= i < |r| ==> IsSlugChar(r[i])
  {
    if s == [] then []
    else (if IsSlugChar(s[0]) then [s[0]] else []) + SlugChars(s[1..])
  }

  lemma {:induction false} SlugCharsAppend(a: string, b: string)
    ensures SlugChars(a + b) == SlugChars(a) + SlugChars(b)
    decreases |a|
  {
    if a == [] {
      assert a + b == b;
    } else {
      assert (a + b)[0] == a[0] && (a + b)[1..] == a[1..] + b;
      SlugCharsAppend(a[1..], b);
      var h := if IsSlugChar(a[0]) then [a[0]] else [];
      assert SlugChars(a) + SlugChars(b) == h + (SlugChars(a[1..]) + SlugChars(b));
    }
  }

  lemma {:induction false} SlugCharsOfNone(s: string)
    requires forall i :: 0 <= i < |s| ==> !IsSlugChar(s[i])
    ensures SlugChars(s) == []
    decreases |s|
  {
    if s != [] {
      SlugCharsOfNone(s[1..]);
    }
  }

  /** Text stripped of characters outside `[a-z0-9]` keeps its slug characters. */
  lemma SlugCharsOfStrip(s: string, drop: char -> bool)
    requires forall c :: drop(c) ==> !IsSlugChar(c)
    ensures SlugChars(LStrip(s, drop)) == SlugChars(s)
    ensures SlugChars(RStrip(s, drop)) == SlugChars(s)
  {
    var l := LStrip(s, drop);
    LStripSpec(s, drop);
    SlugCharsDropFront(s, |s| - |l|);
    var r := RStrip(s, drop);
    RStripSpec(s, drop);
    SlugCharsDropBack(s, |r|);
  }

  /** Cutting off a front part without slug characters keeps the slug characters. */
  lemma SlugCharsDropFront(s: string, m: nat)
    requires m <= |s| && forall i :: 0 <= i < m ==> !IsSlugChar(s[i])
    ensures SlugChars(s[m..]) == SlugChars(s)
  {
    assert s == s[..m] + s[m..];
    SlugCharsAppend(s[..m], s[m..]);
    SlugCharsOfNone(s[..m]);
  }

  /** Cutting off a back part without slug characters keeps the slug characters. */
  lemma SlugCharsDropBack(s: string, m: nat)
    requires m <= |s| && forall i :: m <= i < |s| ==> !IsSlugChar(s[i])
    ensures SlugChars(s[..m]) == SlugChars(s)
  {
    assert s == s[..m] + s[m..];
    SlugCharsAppend(s[..m], s[m..]);
    SlugCharsOfNone(s[m..]);
  }

  /** `re.sub` only rewrites characters outside `[a-z0-9]`: the slug characters survive, in order. */
  lemma {:induction false} DashesKeepsSlugChars(s: string)
    ensures SlugChars(Dashes(s)) == SlugChars(s)
    decreases |s|
  {
    if s != [] {
      if IsSlugChar(s[0]) {
        DashesKeepsSlugChars(s[1..]);
        SlugCharsAppend([s[0]], Dashes(s[1..]));
      } else {
        var rest := LStrip(s, NotSlugChar);
        LStripShortens(s, NotSlugChar);
        DashesKeepsSlugChars(rest);
        SlugCharsOfStrip(s, NotSlugChar);
        SlugCharsAppend(['-'], Dashes(rest));
      }
    }
  }

  /** A maximal run of characters outside `[a-z0-9]` becomes exactly one `-`. */
  lemma DashesOfRun(run: string, t: string)
    requires run != [] && forall i :: 0 <= i < |run| ==> !IsSlugChar(run[i])
    requires t != [] ==> IsSlugChar(t[0])
    ensures Dashes(run + t) == ['-'] + Dashes(t)
  {
    LStripOfRun(run, t);
  }

  lemma {:induction false} LStripOfRun(run: string, t: string)
    requires forall i :: 0 <= i < |run| ==> !IsSlugChar(run[i])
    requires t != [] ==> IsSlugChar(t[0])
    ensures LStrip(run + t, NotSlugChar) == t
    decreases |run|
  {
    if run != [] {
      assert (run + t)[1..] == run[1..] + t;
      LStripOfRun(run[1..], t);
    } else {
      assert run + t == t;
    }
  }

  /** A slug holds exactly the `[a-z0-9]` characters of the lower-cased name, in order. */
  lemma SlugifyKeepsSlugChars(name: string)
    ensures SlugChars(Slugify(name)) == SlugChars(Lower(name))
  {
    var d := Dashes(Lower(name));
    DashesKeepsSlugChars(Lower(name));
    SlugCharsOfStrip(d, IsDash);
    SlugCharsOfStrip(LStrip(d, IsDash), IsDash);
  }

  /** Slugifying a slug changes nothing. */
  lemma SlugifyIdempotent(name: string)
    ensures Slugify(Slugify(name)) == Slugify(name)
  {
    var s := Slugify(name);
    LowerOfSlugText(s);
    DashesOfCollapsed(s);
    StripOfSlug(s);
  }
}
