/** The POSIX `path.basename` and `path.extname` of Node.js, for the uses the
    extractors make of them: the extension that selects a parser and the
    name given to an anonymous default export (the file's base name without
    its extension, first character upper-cased). */
module PathNames {
  import opened Text

  /** `p` without its trailing slashes. */
  function StripTrailingSlashes(p: string): (r: string)
    ensures |r| <= |p|
  {
    if p != [] && p[|p| - 1] == '/' then StripTrailingSlashes(p[..|p| - 1]) else p
  }

  /** Only slashes are removed, all of them from the end. */
  lemma {:induction false} StripTrailingSlashesSpec(p: string)
    ensures var r := StripTrailingSlashes(p);
      && r == p[..|r|]
      && (r == [] || r[|r| - 1] != '/')
      && forall k :: |r| <= k < |p| ==> p[k] == '/'
  {
    if p != [] && p[|p| - 1] == '/' {
      StripTrailingSlashesSpec(p[..|p| - 1]);
    }
  }

  /** What follows the last '/' of `p`. */
  function LastSegment(p: string): (r: string)
    ensures |r| <= |p|
  {
    if p == [] || p[|p| - 1] == '/' then []
    else LastSegment(p[..|p| - 1]) + [p[|p| - 1]]
  }

  /** The last segment is the longest slash-free suffix. */
  lemma {:induction false} LastSegmentSpec(p: string)
    ensures var r := LastSegment(p);
      && '/' !in r
      && r == p[|p| - |r|..]
      && (|r| < |p| ==> p[|p| - |r| - 1] == '/')
  {
    if p != [] && p[|p| - 1] != '/' {
      var init := p[..|p| - 1];
      LastSegmentSpec(init);
      var r := LastSegment(p);
      assert r == LastSegment(init) + [p[|p| - 1]];
      assert r == p[|p| - |r|..] by {
        assert p == init + [p[|p| - 1]];
      }
    }
  }

  /** `path.basename(p)`: the last segment once trailing slashes are gone. */
  function Base(p: string): (r: string)
    ensures |r| <= |p|
  {
    LastSegment(StripTrailingSlashes(p))
  }

  /** `path.join(dir, item)` for a directory entry, without the
      normalisation of "." and ".." segments. */
  function JoinPath(dir: string, item: string): (r: string)
    ensures '/' !in item && item != [] ==> Base(r) == item
  {
    assert '/' !in item && item != [] ==> Base(dir + "/" + item) == item by {
      if '/' !in item && item != [] {
        BaseOfJoin(dir, item);
      }
    }
    dir + "/" + item
  }

  /** Index of the last '.' of `s`, or -1. */
  function LastDot(s: string): (r: int)
    ensures -1 <= r < |s|
  {
    if s == [] then -1
    else if s[|s| - 1] == '.' then |s| - 1
    else LastDot(s[..|s| - 1])
  }

  lemma {:induction false} LastDotSpec(s: string)
    ensures var r := LastDot(s);
      && (r >= 0 ==> s[r] == '.')
      && forall k :: r < k < |s| ==> s[k] != '.'
  {
    if s != [] && s[|s| - 1] != '.' {
      LastDotSpec(s[..|s| - 1]);
    }
  }

  /** The extension of a base name `b`: from its last '.' to its end, or
      "" when there is no dot, when the only dot is its first character
      (".bashrc"), or when the name is "..". */
  function ExtOf(b: string): (r: string)
    ensures |r| <= |b|
    ensures r != [] ==> |r| < |b|
  {
    var d := LastDot(b);
    if d <= 0 || b == ".." then [] else b[d..]
  }

  /** An extension is a suffix of the name that starts with its only dot. */
  lemma ExtOfSpec(b: string)
    ensures var r := ExtOf(b);
      && r == b[|b| - |r|..]
      && (r != [] ==> r[0] == '.')
      && forall k :: 1 <= k < |r| ==> r[k] != '.'
  {
    LastDotSpec(b);
  }

  /** `path.extname(p)`. */
  function Ext(p: string): string {
    ExtOf(Base(p))
  }

  /** A base name without its extension. */
  function StemOf(b: string): (r: string)
    ensures |r| + |ExtOf(b)| == |b|
    ensures ExtOf(b) != [] ==> r != []
  {
    b[..|b| - |ExtOf(b)|]
  }

  /** The stem and the extension make up the base name. */
  lemma StemOfSpec(b: string)
    ensures StemOf(b) + ExtOf(b) == b
  {
    ExtOfSpec(b);
    var n := |b| - |ExtOf(b)|;
    assert b == b[..n] + b[n..];
  }

  /** `path.basename(p, path.extname(p))`. */
  function Stem(p: string): string {
    StemOf(Base(p))
  }

  /** The name of an anonymous default export: `basename.charAt(0)
      .toUpperCase() + basename.slice(1)` on the stem. */
  function DefaultExportName(p: string): (r: string)
    ensures |r| == |Stem(p)|
  {
    Capitalize(Stem(p))
  }

  /** The extensions the JavaScript extractors accept. */
  predicate SupportedExt(e: string) {
    e in [".js", ".jsx", ".ts", ".tsx", ".mjs"]
  }

  /** `ext.includes('x')`: JSX is switched on for ".jsx" and ".tsx". */
  predicate JsxEnabled(e: string) {
    HasChar(e, 'x')
  }

  /** Of the accepted extensions exactly ".jsx" and ".tsx" enable JSX. */
  lemma JsxExtensions(e: string)
    requires SupportedExt(e)
    ensures JsxEnabled(e) <==> e == ".jsx" || e == ".tsx"
  {
    assert ".js" == ['.', 'j', 's'] && ".ts" == ['.', 't', 's'] && ".mjs" == ['.', 'm', 'j', 's'];
    assert ".jsx" == ['.', 'j', 's', 'x'] && ".tsx" == ['.', 't', 's', 'x'];
  }

  lemma {:induction false} LastSegmentAfterSlash(dir: string, item: string)
    requires '/' !in item
    ensures LastSegment(dir + "/" + item) == item
  {
    var p := dir + "/" + item;
    if item != [] {
      var init := item[..|item| - 1];
      assert p[..|p| - 1] == dir + "/" + init;
      LastSegmentAfterSlash(dir, init);
      assert item == init + [item[|item| - 1]];
    }
  }

  /** The file name of a directory entry joined onto its directory is the
      base name of the joined path. */
  lemma BaseOfJoin(dir: string, item: string)
    requires item != [] && '/' !in item
    ensures Base(dir + "/" + item) == item
  {
    var p := dir + "/" + item;
    assert p[|p| - 1] == item[|item| - 1];
    assert StripTrailingSlashes(p) == p;
    LastSegmentAfterSlash(dir, item);
  }

  lemma {:induction false} LastDotBefore(s: string, post: string)
    requires '.' !in post
    ensures LastDot(s + post) == LastDot(s)
  {
    if post != [] {
      var init := post[..|post| - 1];
      assert (s + post)[..|s + post| - 1] == s + init;
      LastDotBefore(s, init);
    } else {
      assert s + post == s;
    }
  }

  /** The name "stem.ext" has extension ".ext" and stem "stem", whatever
      dots the stem holds, as long as the stem is not empty and the
      extension has no dot. */
  lemma ExtOfName(stem: string, ext: string)
    requires stem != [] && '.' !in ext && stem + "." + ext != ".."
    ensures ExtOf(stem + "." + ext) == "." + ext
    ensures StemOf(stem + "." + ext) == stem
  {
    var b := stem + "." + ext;
    LastDotBefore(stem + ".", ext);
    assert LastDot(stem + ".") == |stem|;
    assert b[|stem|..] == "." + ext;
    var r := StemOf(b);
    StemOfSpec(b);
    assert r + ("." + ext) == b;
    assert r == b[..|stem|] == stem;
  }

  /** The same for a file of that name in a directory. */
  lemma ExtOfJoin(dir: string, stem: string, ext: string)
    requires stem != [] && '/' !in stem && '/' !in ext && '.' !in ext
    requires stem + "." + ext != ".."
    ensures Ext(dir + "/" + (stem + "." + ext)) == "." + ext
    ensures Stem(dir + "/" + (stem + "." + ext)) == stem
  {
    BaseOfJoin(dir, stem + "." + ext);
    ExtOfName(stem, ext);
  }

  /** Only the part after the last dot is the extension. */
  lemma ExtOfDoubleExtension()
    ensures Ext("dist/archive.tar.gz") == ".gz"
  {
    assert "dist" + "/" + ("archive.tar" + "." + "gz") == "dist/archive.tar.gz";
    ExtOfJoin("dist", "archive.tar", "gz");
  }

  /** The index of a dot with no dot after it is the last dot. */
  lemma {:induction false} LastDotIs(s: string, d: nat)
    requires d < |s| && s[d] == '.'
    requires forall k :: d < k < |s| ==> s[k] != '.'
    ensures LastDot(s) == d
  {
    if d < |s| - 1 {
      LastDotIs(s[..|s| - 1], d);
    }
  }

  /** A name whose only dot is its first character has no extension
      (".bashrc", ".env"). */
  lemma DotFileHasNoExt(p: string)
    requires Base(p) != [] && Base(p)[0] == '.'
    requires forall k :: 1 <= k < |Base(p)| ==> Base(p)[k] != '.'
    ensures Ext(p) == ""
  {
    LastDotIs(Base(p), 0);
  }

  /** With a dot that is not the first character, the extension runs from
      the last dot to the end. */
  lemma ExtFromLastDot(p: string, d: nat)
    requires 1 <= d < |Base(p)| && Base(p)[d] == '.'
    requires forall k :: d < k < |Base(p)| ==> Base(p)[k] != '.'
    requires Base(p) != ".."
    ensures Ext(p) == Base(p)[d..]
  {
    LastDotIs(Base(p), d);
  }

  /** An anonymous default export in "dir/widget.js" is named "Widget":
      the stem with its first character upper-cased. */
  lemma DefaultExportNameOfJoin(dir: string, stem: string, ext: string)
    requires stem != [] && '/' !in stem && '/' !in ext && '.' !in ext
    requires stem + "." + ext != ".."
    ensures DefaultExportName(dir + "/" + (stem + "." + ext)) == [UpperAscii(stem[0])] + stem[1..]
  {
    ExtOfJoin(dir, stem, ext);
  }
}
