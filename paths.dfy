/**
 * Path strings used by the build script: the suffix test behind the regular
 * expressions `/\.scss$/`, the `path.join` of a directory and one of its
 * entries, and the rename that derives a stylesheet's output path.
 */
module Paths {

  /** Extension of the stylesheet sources. */
  const ScssExt: string := ".scss"

  /** Extension of the compiled output. */
  const CssExt: string := ".css"

  /** Separator `path.join` puts between a directory and an entry name. */
  const Sep: char := '/'

  /** `s` ends with `suffix`: what a regular expression `suffix$` matches. */
  predicate EndsWith(s: string, suffix: string) {
    |suffix| <= |s| && s[|s| - |suffix|..] == suffix
  }

  predicate StartsWith(s: string, prefix: string) {
    |prefix| <= |s| && s[..|prefix|] == prefix
  }

  /** An entry name as a directory listing returns it: it holds no separator. */
  predicate NoSep(name: string) {
    forall i :: 0 <= i < |name| ==> name[i] != Sep
  }

  /** `path.join(base, name)` for a base without a trailing separator and a plain entry name. */
  function Join(base: string, name: string): (p: string)
    ensures |p| == |base| + 1 + |name|
    ensures StartsWith(p, base + [Sep])
    ensures EndsWith(p, name)
  {
    var p := base + [Sep] + name;
    assert p[..|base| + 1] == base + [Sep];
    assert p[|p| - |name|..] == name;
    p
  }

  /** `f.replace(/\.scss$/, ".css")`: a trailing `.scss` becomes `.css`, anything else is left alone. */
  function OutPath(f: string): string {
    if EndsWith(f, ScssExt) then f[..|f| - |ScssExt|] + CssExt else f
  }

  /** The inverse of the rename on stylesheet sources: the source a `.css` output came from. */
  function SourceOf(out: string): string
    requires EndsWith(out, CssExt)
  {
    out[..|out| - |CssExt|] + ScssExt
  }

  /** A path that ends in `.scss` keeps everything before the extension and gains `.css`. */
  lemma RenameScss(prefix: string)
    ensures OutPath(prefix + ScssExt) == prefix + CssExt
  {
  }

  /** A path that does not end in `.scss` is returned unchanged. */
  lemma RenameOther(f: string)
    requires !EndsWith(f, ScssExt)
    ensures OutPath(f) == f
  {
  }

  /** The rename changes a path exactly when the path ends in `.scss`. */
  lemma RenameChanges(f: string)
    ensures OutPath(f) != f <==> EndsWith(f, ScssExt)
  {
  }

  /**
   * Only the trailing `.scss` is rewritten: an earlier occurrence of the
   * extension, here in a directory name, survives.
   */
  lemma RenameTrailingOnly()
    ensures OutPath("a.scss/b.scss") == "a.scss/b.css"
  {
  }

  /** The output of a stylesheet source ends in `.css`, and `SourceOf` recovers the source from it. */
  lemma RenameInverse(f: string)
    requires EndsWith(f, ScssExt)
    ensures EndsWith(OutPath(f), CssExt)
    ensures SourceOf(OutPath(f)) == f
  {
  }

  /** Two stylesheet sources never share an output path. */
  lemma RenameInjective(f: string, g: string)
    requires EndsWith(f, ScssExt) && EndsWith(g, ScssExt)
    requires f != g
    ensures OutPath(f) != OutPath(g)
  {
    RenameInverse(f);
    RenameInverse(g);
  }

  /** Renaming an output again leaves it alone: no `.css` path ends in `.scss`. */
  lemma RenameIdempotent(f: string)
    ensures OutPath(OutPath(f)) == OutPath(f)
  {
    if EndsWith(f, ScssExt) {
      var out := OutPath(f);
      RenameInverse(f);
      assert out[|out| - 4] == '.';
    }
  }

  /**
   * The joined path ends in `.scss` exactly when the entry name does: the
   * separator cannot be part of the extension.
   */
  lemma JoinEndsWithScss(base: string, name: string)
    ensures EndsWith(Join(base, name), ScssExt) <==> EndsWith(name, ScssExt)
  {
    var p := Join(base, name);
    if EndsWith(p, ScssExt) {
      // the separator at index |base| cannot be one of the extension's characters
      assert p[|base|] == Sep;
      assert |name| >= |ScssExt|;
      assert p[|p| - |ScssExt|..] == name[|name| - |ScssExt|..];
    }
    if EndsWith(name, ScssExt) {
      assert p[|p| - |ScssExt|..] == name[|name| - |ScssExt|..];
    }
  }

  /**
   * Paths below two entries of one directory whose names hold no separator
   * can only coincide when the names do: the name is the segment that
   * follows `base/`.
   */
  lemma SegmentUnique(base: string, n1: string, t1: string, n2: string, t2: string)
    requires NoSep(n1) && NoSep(n2)
    requires t1 == [] || t1[0] == Sep
    requires t2 == [] || t2[0] == Sep
    requires Join(base, n1) + t1 == Join(base, n2) + t2
    ensures n1 == n2
  {
    var p := Join(base, n1) + t1;
    var k := |base| + 1;
    assert n1 == p[k..k + |n1|];
    assert n2 == p[k..k + |n2|];
  }
}
