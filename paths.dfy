/** Paths and the mapping between the source tree and the destination tree
    (the `strings.TrimPrefix` / `filepath.Join` / `filepath.Ext` expressions
    of main.go). A path is the sequence of its components; roots are taken
    to be canonical, so joining is concatenation. */
module Paths {

  type Path = seq<string>

  /** The extension given to built pages. */
  const HtmlExt: string := ".html"

  predicate IsPrefix<T(==)>(pre: seq<T>, s: seq<T>) {
    |pre| <= |s| && s[..|pre|] == pre
  }

  predicate IsSuffix<T(==)>(suf: seq<T>, s: seq<T>) {
    |suf| <= |s| && s[|s| - |suf|..] == suf
  }

  /** `strings.TrimPrefix` on component sequences. */
  function TrimPrefix(p: Path, root: Path): (r: Path)
    ensures IsPrefix(root, p) ==> root + r == p
    ensures !IsPrefix(root, p) ==> r == p
  {
    if IsPrefix(root, p) then p[|root|..] else p
  }

  /** `strings.TrimSuffix` on one name. */
  function TrimSuffix(s: string, suf: string): (r: string)
    ensures IsSuffix(suf, s) ==> r + suf == s
    ensures !IsSuffix(suf, s) ==> r == s
  {
    if IsSuffix(suf, s) then s[..|s| - |suf|] else s
  }

  /** `filepath.Ext` of one name: the suffix starting at its last '.',
      or "" when the name holds no '.'. */
  function Ext(name: string): (e: string)
    ensures IsSuffix(e, name)
    ensures e == [] || (e[0] == '.' && '.' !in e[1..])
    ensures e == [] <==> '.' !in name
  {
    if name == [] then []
    else if name[|name| - 1] == '.' then "."
    else
      var e := Ext(name[..|name| - 1]);
      assert name == name[..|name| - 1] + [name[|name| - 1]];
      if e == [] then [] else e + [name[|name| - 1]]
  }

  /** The last component (`filepath.Base`), "" for the empty path. */
  function LastName(p: Path): string {
    if p == [] then "" else p[|p| - 1]
  }

  /** `filepath.Ext` of a whole path: the extension of its last component. */
  function PathExt(p: Path): string {
    Ext(LastName(p))
  }

  /** The path with its last component replaced by `name`. */
  function WithLast(p: Path, name: string): (r: Path)
    ensures |r| == if p == [] then 1 else |p|
    ensures LastName(r) == name
  {
    if p == [] then [name] else p[..|p| - 1] + [name]
  }

  /** The base name without its extension (the `page_name` binding). */
  function Stem(name: string): string {
    TrimSuffix(name, Ext(name))
  }

  /** The same relative position under another root, as for directories
      (main.go:85 when building, main.go:195 when cleaning). */
  function Rebase(p: Path, from: Path, to: Path): (r: Path)
    ensures IsPrefix(from, p) ==> IsPrefix(to, r) && r[|to|..] == p[|from|..]
  {
    to + TrimPrefix(p, from)
  }

  /** The destination of a source file (main.go:98-102): rebased into the
      destination tree, with the builder's extension swapped for ".html"
      when the extension of the rebased path equals it. */
  function DstOfFile(p: Path, srcRoot: Path, dstRoot: Path, builderExt: string): Path
  {
    var eq := Rebase(p, srcRoot, dstRoot);
    var ext := PathExt(eq);
    if ext == builderExt then WithLast(eq, TrimSuffix(LastName(eq), ext) + HtmlExt) else eq
  }

  /** The source counterpart of a destination file (main.go:205-210):
      rebased into the source tree, with a ".html" extension turned back
      into the builder's extension. */
  function SrcOfFile(p: Path, srcRoot: Path, dstRoot: Path, builderExt: string): Path
  {
    var ext := PathExt(p);
    var eq := Rebase(p, dstRoot, srcRoot);
    if ext == HtmlExt then WithLast(eq, TrimSuffix(LastName(eq), HtmlExt) + builderExt) else eq
  }

  /** Renders a path as the string handed to templates (`src_path`, `dst_path`). */
  function Render(p: Path): string
    decreases |p|
  {
    if p == [] then ""
    else if |p| == 1 then p[0]
    else Render(p[..|p| - 1]) + "/" + p[|p| - 1]
  }

  /** Two prefixes of one path: the shorter is a prefix of the longer. */
  lemma PrefixesNest(a: Path, b: Path, x: Path)
    requires IsPrefix(a, x) && IsPrefix(b, x)
    ensures IsPrefix(a, b) || IsPrefix(b, a)
  {
    if |a| <= |b| {
      assert b[..|a|] == x[..|a|];
    } else {
      assert a[..|b|] == x[..|b|];
    }
  }

  /** A path whose first components are `root` lies under `root`, and so
      does anything below it. */
  lemma UnderRoot(root: Path, d: Path, q: Path)
    requires IsPrefix(root, d) && IsPrefix(d, q)
    ensures IsPrefix(root, q)
  {
    assert q[..|root|] == q[..|d|][..|root|];
  }

  /** A name ending in ".html" has extension ".html", whatever precedes it. */
  lemma ExtOfHtmlName(stem: string)
    ensures Ext(stem + HtmlExt) == HtmlExt
  {
    assert (stem + HtmlExt)[|stem|] == '.';
  }

  /** Directories map back and forth with no change (main.go:85, main.go:195). */
  lemma DirRoundTrip(p: Path, srcRoot: Path, dstRoot: Path)
    requires IsPrefix(srcRoot, p)
    ensures IsPrefix(dstRoot, Rebase(p, srcRoot, dstRoot))
    ensures Rebase(Rebase(p, srcRoot, dstRoot), dstRoot, srcRoot) == p
  {
  }

  /** A content file (extension equal to the builder's) is built at a
      ".html" path, and cleaning maps that path back to the content file. */
  lemma ContentRoundTrip(p: Path, srcRoot: Path, dstRoot: Path, builderExt: string)
    requires IsPrefix(srcRoot, p) && |p| > |srcRoot|
    requires PathExt(p) == builderExt
    ensures var d := DstOfFile(p, srcRoot, dstRoot, builderExt);
            IsPrefix(dstRoot, d) && |d| == |dstRoot| + |p| - |srcRoot| && PathExt(d) == HtmlExt
            && LastName(d) == Stem(LastName(p)) + HtmlExt
            && SrcOfFile(d, srcRoot, dstRoot, builderExt) == p
  {
    var stem := Stem(LastName(p));
    var d := RebaseRenamed(p, srcRoot, dstRoot, stem + HtmlExt);
    assert DstOfFile(p, srcRoot, dstRoot, builderExt) == d;
    ExtOfHtmlName(stem);
    var back := RebaseRenamed(d, dstRoot, srcRoot, stem + builderExt);
    assert SrcOfFile(d, srcRoot, dstRoot, builderExt) == back;
    assert stem + builderExt == LastName(p);
    WithLastSame(p);
  }

  /** Rebasing then renaming the last component: the result keeps the
      relative directory and ends in the new name. */
  lemma RebaseRenamed(p: Path, from: Path, to: Path, name: string) returns (r: Path)
    requires IsPrefix(from, p) && |p| > |from|
    ensures r == WithLast(Rebase(p, from, to), name)
    ensures r == WithLast(to + p[|from|..], name)
    ensures IsPrefix(to, r) && |r| == |to| + |p| - |from| && |r| > |to|
    ensures LastName(Rebase(p, from, to)) == LastName(p)
    ensures LastName(r) == name
    ensures Rebase(r, to, from) == WithLast(p, name)
  {
    var rel := p[|from|..];
    r := WithLast(to + rel, name);
    assert r == to + (rel[..|rel| - 1] + [name]);
    assert p == from + rel;
    assert WithLast(p, name) == from + (rel[..|rel| - 1] + [name]);
  }

  lemma WithLastSame(p: Path)
    requires p != []
    ensures WithLast(p, LastName(p)) == p
  {
  }

  /** A resource whose extension is neither the builder's nor ".html" keeps
      its relative path, and cleaning maps it back to itself. */
  lemma ResourceRoundTrip(p: Path, srcRoot: Path, dstRoot: Path, builderExt: string)
    requires IsPrefix(srcRoot, p) && |p| > |srcRoot|
    requires PathExt(p) != builderExt && PathExt(p) != HtmlExt
    ensures var d := DstOfFile(p, srcRoot, dstRoot, builderExt);
            d == Rebase(p, srcRoot, dstRoot) && PathExt(d) == PathExt(p)
            && SrcOfFile(d, srcRoot, dstRoot, builderExt) == p
  {
    assert LastName(Rebase(p, srcRoot, dstRoot)) == LastName(p);
  }

  /** A resource named "x.html" (with a builder extension other than ".html")
      does not survive the round trip: cleaning looks for "x" plus the
      builder's extension instead. */
  lemma HtmlResourceMismapped(p: Path, srcRoot: Path, dstRoot: Path, builderExt: string)
    requires IsPrefix(srcRoot, p) && |p| > |srcRoot|
    requires PathExt(p) == HtmlExt && builderExt != HtmlExt
    ensures var back := SrcOfFile(DstOfFile(p, srcRoot, dstRoot, builderExt), srcRoot, dstRoot, builderExt);
            back == WithLast(p, TrimSuffix(LastName(p), HtmlExt) + builderExt) && back != p
  {
    var rel := p[|srcRoot|..];
    var d := Rebase(p, srcRoot, dstRoot);
    assert d == dstRoot + rel;
    assert LastName(d) == LastName(p);
    assert DstOfFile(p, srcRoot, dstRoot, builderExt) == d;
    var back := Rebase(d, dstRoot, srcRoot);
    assert back == p;
    var stem := TrimSuffix(LastName(p), HtmlExt);
    assert stem + HtmlExt == LastName(p);
    var r := WithLast(p, stem + builderExt);
    if r == p {
      assert false;
    }
  }
}
