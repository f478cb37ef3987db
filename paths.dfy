/**
  Path strings: the name of the N-th output file, and the default output directory that is
  built with `java.io.File` on a Unix host (separator `/`).
*/
module Paths {
  import opened Wrappers

  /** `File.separator` on the host modelled here. */
  const Separator: char := '/'

  predicate IsDigitChar(c: char)
  {
    '0' <= c <= '9'
  }

  function DigitChar(d: nat): (c: char)
    requires d < 10
    ensures IsDigitChar(c)
  {
    ('0' as int + d) as char
  }

  /** `Integer.toString(n)` for n >= 0: base 10, no leading zeros. */
  function DecimalString(n: nat): (s: string)
    ensures |s| >= 1
    ensures forall k :: 0 <= k < |s| ==> IsDigitChar(s[k])
    ensures |s| > 1 ==> s[0] != '0'
    ensures n >= 10 ==> |s| > 1
    decreases n
  {
    if n < 10 then [DigitChar(n)] else DecimalString(n / 10) + [DigitChar(n % 10)]
  }

  /** The value of a string of decimal digits. */
  function DecimalValue(s: string): nat
    requires forall k :: 0 <= k < |s| ==> IsDigitChar(s[k])
    decreases |s|
  {
    if s == [] then 0
    else
      assert IsDigitChar(s[|s| - 1]);
      DecimalValue(s[..|s| - 1]) * 10 + ((s[|s| - 1] as int) - ('0' as int))
  }

  /** Reading the decimal rendering back gives the number. */
  lemma {:induction false} DecimalRoundTrip(n: nat)
    ensures DecimalValue(DecimalString(n)) == n
    decreases n
  {
    var s := DecimalString(n);
    if n >= 10 {
      DecimalRoundTrip(n / 10);
      assert s[..|s| - 1] == DecimalString(n / 10);
    }
  }

  /** Distinct ordinals are rendered differently. */
  lemma DecimalInjective(m: nat, n: nat)
    ensures DecimalString(m) == DecimalString(n) ==> m == n
  {
    DecimalRoundTrip(m);
    DecimalRoundTrip(n);
  }

  /** `"svg_image_" + n + ".svg"`. */
  function FileName(n: nat): string
  {
    "svg_image_" + DecimalString(n) + ".svg"
  }

  /** `outputDir + File.separator + "svg_image_" + n + ".svg"`. */
  function FilePath(dir: string, n: nat): string
  {
    dir + [Separator] + FileName(n)
  }

  /** Within one output directory, distinct ordinals give distinct paths. */
  lemma FilePathInjective(dir: string, m: nat, n: nat)
    ensures FilePath(dir, m) == FilePath(dir, n) <==> m == n
  {
    if FilePath(dir, m) == FilePath(dir, n) {
      var pre := dir + [Separator] + "svg_image_";
      var a, b := DecimalString(m), DecimalString(n);
      assert FilePath(dir, m) == pre + a + ".svg";
      assert FilePath(dir, n) == pre + b + ".svg";
      assert |a| == |b|;
      assert a == FilePath(dir, m)[|pre|..|pre| + |a|];
      assert b == FilePath(dir, n)[|pre|..|pre| + |b|];
      DecimalInjective(m, n);
    }
  }

  /** The concrete name of the first few files. */
  lemma FileNameExamples()
    ensures FileName(1) == "svg_image_1.svg"
    ensures FileName(12) == "svg_image_12.svg"
  {
    assert DecimalString(12) == "12";
  }

  /** Runs of separators collapsed to one, as `UnixFileSystem.normalize` does. */
  function CollapseSlashes(s: string): (r: string)
    ensures |r| <= |s|
    ensures s != [] ==> r != [] && r[0] == s[0]
    ensures forall k :: 0 <= k < |r| - 1 ==> !(r[k] == Separator && r[k + 1] == Separator)
    decreases |s|
  {
    if |s| < 2 then s
    else if s[0] == Separator && s[1] == Separator then CollapseSlashes(s[1..])
    else [s[0]] + CollapseSlashes(s[1..])
  }

  /** The pathname that `new File(s)` keeps: separators collapsed and a trailing separator
      dropped, except that a path of separators only becomes "/". */
  function Normalize(s: string): (r: string)
    ensures r == [] <==> s == []
    ensures s != [] ==> r[0] == s[0]
    ensures forall k :: 0 <= k < |r| - 1 ==> !(r[k] == Separator && r[k + 1] == Separator)
    ensures |r| > 1 ==> r[|r| - 1] != Separator
  {
    var c := CollapseSlashes(s);
    if |c| > 1 && c[|c| - 1] == Separator then c[..|c| - 1] else c
  }

  /** A Unix pathname is absolute when it starts with the separator. */
  predicate IsAbsolute(p: string)
  {
    |p| > 0 && p[0] == Separator
  }

  /** The position of the last separator in `s`, if any. */
  function LastSeparator(s: string): (r: Option<nat>)
    ensures r.Some? ==> r.value < |s| && s[r.value] == Separator
    ensures r.Some? ==> forall k :: r.value < k < |s| ==> s[k] != Separator
    ensures r.None? ==> forall k :: 0 <= k < |s| ==> s[k] != Separator
    decreases |s|
  {
    if s == [] then None
    else if s[|s| - 1] == Separator then Some(|s| - 1)
    else LastSeparator(s[..|s| - 1])
  }

  /** `File.getParent()` of a normalised pathname: everything before the last separator, "/"
      for an entry of the root directory, and `null` (`None`) when there is no separator or
      the path is the root itself. */
  function Parent(p: string): Option<string>
  {
    match LastSeparator(p)
    case None => None
    case Some(i) =>
      if i == 0 then (if |p| > 1 then Some([Separator]) else None)
      else Some(p[..i])
  }

  /** `UnixFileSystem.resolve(parent, child)` for a child that does not start with the
      separator: the parent itself for an empty child, no separator added after the root. */
  function Resolve(parent: string, child: string): string
  {
    if child == [] then parent
    else if parent == [Separator] then parent + child
    else parent + [Separator] + child
  }

  /** `getAbsolutePath()`: a relative pathname is resolved against the working directory
      `cwd` (the `user.dir` property). */
  function Absolute(p: string, cwd: string): string
  {
    if IsAbsolute(p) then p else Resolve(cwd, p)
  }

  /** The folder name the scraper creates next to the HTML file. */
  const ImagesDir: string := "images"

  /** `new File(new File(htmlPath).getParent(), "images").getAbsolutePath()`: the `images`
      folder beside the HTML file, made absolute against `cwd`. */
  function DefaultOutputDir(htmlPath: string, cwd: string): (r: string)
    ensures NamesEntry(r, ImagesDir)
    ensures IsAbsolute(cwd) ==> IsAbsolute(r)
  {
    match Parent(Normalize(htmlPath))
    case None =>
      ResolveNamesEntry(cwd, ImagesDir);
      Absolute(ImagesDir, cwd)
    case Some(dir) =>
      ResolveNamesEntry(dir, ImagesDir);
      AbsoluteKeepsEntry(Resolve(dir, ImagesDir), ImagesDir, cwd);
      Absolute(Resolve(dir, ImagesDir), cwd)
  }

  /** `p` ends with a separator followed by `name`. */
  predicate NamesEntry(p: string, name: string)
  {
    |p| > |name| && p[|p| - |name|..] == name && p[|p| - |name| - 1] == Separator
  }

  lemma ResolveNamesEntry(parent: string, name: string)
    requires name != []
    ensures NamesEntry(Resolve(parent, name), name)
    ensures IsAbsolute(parent) ==> IsAbsolute(Resolve(parent, name))
  {
    var p := Resolve(parent, name);
    assert p[|p| - |name|..] == name;
  }

  /** Making a path absolute keeps its last entry. */
  lemma AbsoluteKeepsEntry(p: string, name: string, cwd: string)
    requires NamesEntry(p, name)
    ensures NamesEntry(Absolute(p, cwd), name)
    ensures IsAbsolute(cwd) ==> IsAbsolute(Absolute(p, cwd))
  {
    if !IsAbsolute(p) {
      var r := Resolve(cwd, p);
      ResolveNamesEntry(cwd, p);
      assert r[|r| - |p|..] == p;
      assert r[|r| - |name|..] == p[|p| - |name|..];
      assert r[|r| - |name| - 1] == p[|p| - |name| - 1];
    }
  }

  /** No two separators in a row. */
  predicate SingleSeparators(s: string)
  {
    forall k :: 0 <= k < |s| - 1 ==> !(s[k] == Separator && s[k + 1] == Separator)
  }

  /** Joining two such strings keeps it when no separator meets another at the seam. */
  lemma SingleSeparatorsConcat(a: string, b: string)
    requires SingleSeparators(a) && SingleSeparators(b)
    requires a == [] || b == [] || a[|a| - 1] != Separator || b[0] != Separator
    ensures SingleSeparators(a + b)
  {
    var p := a + b;
    forall k | 0 <= k < |p| - 1
      ensures !(p[k] == Separator && p[k + 1] == Separator)
    {
      if k + 1 < |a| {
        assert p[k] == a[k] && p[k + 1] == a[k + 1];
      } else if k >= |a| {
        assert p[k] == b[k - |a|] && p[k + 1] == b[k + 1 - |a|];
      } else {
        assert p[k] == a[|a| - 1] && p[k + 1] == b[0];
      }
    }
  }

  /** Putting a separator-free name into a normalised directory gives a normalised path. */
  lemma ResolveNormal(d: string, name: string)
    requires d != [] && d == Normalize(d)
    requires name != [] && Separator !in name
    ensures Normalize(Resolve(d, name)) == Resolve(d, name)
  {
    var p := Resolve(d, name);
    assert SingleSeparators(d);
    assert SingleSeparators(name) by {
      forall k | 0 <= k < |name| ensures name[k] != Separator { }
    }
    if d == [Separator] {
      SingleSeparatorsConcat(d, name);
    } else {
      assert d[|d| - 1] != Separator by {
        if |d| == 1 { assert d == [d[0]]; }
      }
      SingleSeparatorsConcat(d, [Separator]);
      SingleSeparatorsConcat(d + [Separator], name);
    }
    NormalUnchanged(p);
    assert p[|p| - 1] == name[|name| - 1];
  }

  /** The parent of a separator-free name put into a normalised directory is that directory,
      the root included. */
  lemma ParentOfResolve(d: string, name: string)
    requires d != [] && d == Normalize(d)
    requires name != [] && Separator !in name
    ensures Parent(Normalize(Resolve(d, name))) == Some(d)
  {
    var p := Resolve(d, name);
    var i := |p| - |name| - 1;
    assert p[i] == Separator;
    assert p[i + 1..] == name;
    forall k | i < k < |p| ensures p[k] != Separator {
      assert p[k] == name[k - i - 1];
    }
    ResolveNormal(d, name);
    LastSeparatorAt(p, i);
    if d == [Separator] {
      assert Parent(p) == Some([Separator]);
    } else {
      assert p[..i] == d;
    }
  }

  /** The default output directory of an HTML file in a directory `d` is the `images` entry
      of `d`, made absolute. */
  lemma DefaultOutputDirOfResolve(d: string, name: string, cwd: string)
    requires d != [] && d == Normalize(d)
    requires name != [] && Separator !in name
    ensures DefaultOutputDir(Resolve(d, name), cwd) == Absolute(Resolve(d, ImagesDir), cwd)
  {
    ParentOfResolve(d, name);
  }

  /** The default output directory is the `images` entry of the directory that holds the HTML
      file: for an HTML file in an absolute directory `d` other than the root, it is
      `d + "/images"`; for one in the root, "/images". */
  lemma DefaultOutputDirIsSibling(d: string, name: string, cwd: string)
    requires IsAbsolute(d) && d == Normalize(d)
    requires name != [] && Separator !in name
    ensures DefaultOutputDir(Resolve(d, name), cwd) == Resolve(d, ImagesDir)
  {
    DefaultOutputDirOfResolve(d, name, cwd);
    assert IsAbsolute(Resolve(d, ImagesDir));
  }

  /** For an HTML file in a relative directory `d`, the `images` entry of `d` is resolved
      against the working directory: `cwd + "/" + d + "/images"`, or `"/" + d + "/images"`
      when the working directory is the root. */
  lemma DefaultOutputDirRelative(d: string, name: string, cwd: string)
    requires d != [] && !IsAbsolute(d) && d == Normalize(d)
    requires name != [] && Separator !in name
    ensures DefaultOutputDir(Resolve(d, name), cwd) == Resolve(cwd, Resolve(d, ImagesDir))
    ensures cwd != [Separator] ==>
              DefaultOutputDir(Resolve(d, name), cwd) == cwd + [Separator] + d + [Separator] + ImagesDir
    ensures cwd == [Separator] ==>
              DefaultOutputDir(Resolve(d, name), cwd) == [Separator] + d + [Separator] + ImagesDir
  {
    DefaultOutputDirOfResolve(d, name, cwd);
    AbsoluteEntry(d, ImagesDir, cwd);
  }

  /** The entry `name` of a relative directory `d`, made absolute against `cwd`. */
  lemma AbsoluteEntry(d: string, name: string, cwd: string)
    requires d != [] && !IsAbsolute(d) && name != []
    ensures Absolute(Resolve(d, name), cwd) == Resolve(cwd, Resolve(d, name))
    ensures cwd != [Separator] ==> Absolute(Resolve(d, name), cwd) == cwd + [Separator] + d + [Separator] + name
    ensures cwd == [Separator] ==> Absolute(Resolve(d, name), cwd) == [Separator] + d + [Separator] + name
  {
    var child := Resolve(d, name);
    assert child == d + [Separator] + name;
    assert !IsAbsolute(child) by { assert child[0] == d[0]; }
  }

  /** `Normalize` is idempotent: a normalised pathname is left as it is. */
  lemma NormalizeIdempotent(s: string)
    ensures Normalize(Normalize(s)) == Normalize(s)
  {
    NormalUnchanged(Normalize(s));
  }

  /** The default output directory depends only on the normalised HTML path, as
      `new File(htmlPath)` keeps only that. */
  lemma DefaultOutputDirNormalizes(p: string, cwd: string)
    ensures DefaultOutputDir(p, cwd) == DefaultOutputDir(Normalize(p), cwd)
  {
    NormalizeIdempotent(p);
  }

  /** The characters of `s` other than separators, in order. */
  function Strip(s: string): (r: string)
    ensures Separator !in r
    decreases |s|
  {
    if s == [] then []
    else (if s[0] == Separator then [] else [s[0]]) + Strip(s[1..])
  }

  /** `Strip` distributes over concatenation. */
  lemma {:induction false} StripConcat(a: string, b: string)
    ensures Strip(a + b) == Strip(a) + Strip(b)
    decreases |a|
  {
    if a != [] {
      var h := if a[0] == Separator then [] else [a[0]];
      assert (a + b)[0] == a[0];
      assert (a + b)[1..] == a[1..] + b;
      StripConcat(a[1..], b);
      calc {
        Strip(a + b);
        h + Strip(a[1..] + b);
        h + (Strip(a[1..]) + Strip(b));
        (h + Strip(a[1..])) + Strip(b);
      }
    } else {
      assert a + b == b;
    }
  }

  /** Collapsing separators removes separators only. */
  lemma {:induction false} StripCollapseSlashes(s: string)
    ensures Strip(CollapseSlashes(s)) == Strip(s)
    decreases |s|
  {
    if |s| >= 2 {
      StripCollapseSlashes(s[1..]);
      if !(s[0] == Separator && s[1] == Separator) {
        assert ([s[0]] + CollapseSlashes(s[1..]))[1..] == CollapseSlashes(s[1..]);
      }
    }
  }

  /** Normalising a pathname removes separators only: every other character is kept, in
      order. */
  lemma StripNormalize(s: string)
    ensures Strip(Normalize(s)) == Strip(s)
  {
    var c := CollapseSlashes(s);
    StripCollapseSlashes(s);
    if |c| > 1 && c[|c| - 1] == Separator {
      assert c == c[..|c| - 1] + [Separator];
      StripConcat(c[..|c| - 1], [Separator]);
    }
  }

  /** A doubled separator anywhere collapses to a single one.  With `NormalUnchanged` this
      pins `CollapseSlashes` down on every input. */
  lemma {:induction false} CollapseDoubled(p: string, q: string)
    ensures CollapseSlashes(p + [Separator, Separator] + q) == CollapseSlashes(p + [Separator] + q)
    decreases |p|
  {
    var s, t := p + [Separator, Separator] + q, p + [Separator] + q;
    if p == [] {
      assert s[1..] == t;
    } else {
      var c, p' := p[0], p[1..];
      assert s[0] == c && s[1..] == p' + [Separator, Separator] + q;
      assert t[0] == c && t[1..] == p' + [Separator] + q;
      if p' == [] {
        assert s[1..][1..] == t[1..];
      } else {
        CollapseDoubled(p', q);
      }
    }
  }

  /** `new File` keeps one separator where the pathname has two. */
  lemma NormalizeDoubled(p: string, q: string)
    ensures Normalize(p + [Separator, Separator] + q) == Normalize(p + [Separator] + q)
  {
    CollapseDoubled(p, q);
  }

  /** A name put into a normalised directory with a doubled separator, as in `/tmp//doc.html`,
      names the same path as with a single one: `/tmp/doc.html`. */
  lemma NormalizeDoubledEntry(d: string, name: string)
    requires d != [] && d != [Separator] && d == Normalize(d)
    requires name != [] && Separator !in name
    ensures Normalize(d + [Separator, Separator] + name) == d + [Separator] + name
  {
    NormalizeDoubled(d, name);
    ResolveNormal(d, name);
  }

  /** A path without doubled separators is left alone by `CollapseSlashes`. */
  lemma {:induction false} NormalUnchanged(s: string)
    requires forall k :: 0 <= k < |s| - 1 ==> !(s[k] == Separator && s[k + 1] == Separator)
    ensures CollapseSlashes(s) == s
    decreases |s|
  {
    if |s| >= 2 {
      var t := s[1..];
      forall k | 0 <= k < |t| - 1
        ensures !(t[k] == Separator && t[k + 1] == Separator)
      {
        assert t[k] == s[k + 1] && t[k + 1] == s[k + 2];
      }
      NormalUnchanged(t);
      assert s == [s[0]] + s[1..];
    }
  }

  /** `LastSeparator` finds the separator after which there is none. */
  lemma {:induction false} LastSeparatorAt(s: string, i: nat)
    requires i < |s| && s[i] == Separator
    requires forall k :: i < k < |s| ==> s[k] != Separator
    ensures LastSeparator(s) == Some(i)
    decreases |s|
  {
    if i < |s| - 1 {
      var t := s[..|s| - 1];
      assert forall k :: i < k < |t| ==> t[k] == s[k];
      LastSeparatorAt(t, i);
    }
  }

  /** An HTML file named without any directory gets the `images` folder of the working
      directory. */
  lemma DefaultOutputDirOfBareName(name: string, cwd: string)
    requires name != [] && Separator !in name
    ensures DefaultOutputDir(name, cwd) == Resolve(cwd, ImagesDir)
  {
    NormalUnchanged(name);
    assert Normalize(name) == name;
    assert LastSeparator(name).None?;
  }
}
