/** A second pass of the source walk over the same entries does nothing and
    prints nothing (main.go:103-132): directories already exist, pages are
    no older than their sources, and resources are links sharing their
    sources' inode, hence their time. */
module Idempotence {
  import opened Wrappers
  import opened Paths
  import opened Template
  import opened Fs
  import opened Sync

  /** Where the source walk puts the source entry `p`: a directory is
      mirrored at the same relative path, a file is built or linked at
      `DstOfFile`. */
  function DstOf(s0: FsState, config: Config, site: Site, p: Path): Path {
    if p in s0.entries && s0.entries[p].Dir? then Rebase(p, site.srcRoot, site.dstRoot)
    else DstOfFile(p, site.srcRoot, site.dstRoot, config.builder.ext)
  }

  /** A file the source walk builds into a page (main.go:100). */
  predicate IsContent(config: Config, site: Site, p: Path) {
    PathExt(Rebase(p, site.srcRoot, site.dstRoot)) == config.builder.ext
  }

  /** The conditions under which the walk over `order` is idempotent:
      - the two trees are disjoint, and the destination root is a directory;
      - `order` lists entries strictly below the source root, each parent
        before its children (as `filepath.WalkDir` visits them);
      - no entry is listed twice, and no listed entry is named "*.html"
        unless ".html" is the builder's own extension (so that no two
        entries share a destination);
      - no file's destination is a directory;
      - no existing page shares an inode with a listed source entry. */
  ghost predicate WellPlaced(s0: FsState, config: Config, site: Site, order: seq<Path>) {
    && s0.Valid()
    && !IsPrefix(site.srcRoot, site.dstRoot) && !IsPrefix(site.dstRoot, site.srcRoot)
    && site.dstRoot in s0.entries && s0.entries[site.dstRoot].Dir?
    && (forall i :: 0 <= i < |order| ==> order[i] in s0.entries && Below(site.srcRoot, order[i]))
    && (forall i, j :: 0 <= i < j < |order| ==> order[i] != order[j])
    && (forall i :: 0 <= i < |order| && PathExt(order[i]) == HtmlExt ==> config.builder.ext == HtmlExt)
    && (forall i :: 0 <= i < |order| && |order[i]| > |site.srcRoot| + 1 ==>
          Parent(order[i]) in order[..i] && Parent(order[i]) in s0.entries && s0.entries[Parent(order[i])].Dir?)
    && (forall i :: 0 <= i < |order| && s0.entries[order[i]].File? && DstOf(s0, config, site, order[i]) in s0.entries ==>
          s0.entries[DstOf(s0, config, site, order[i])].File?)
    && (forall i, j :: 0 <= i < |order| && 0 <= j < |order| && s0.entries[order[i]].File? && IsContent(config, site, order[i])
                       && DstOf(s0, config, site, order[i]) in s0.entries ==>
          s0.entries[DstOf(s0, config, site, order[i])].ino != s0.entries[order[j]].ino)
  }

  /** The destination of `p` is in the state a finished step leaves it in:
      a directory for a directory; for a file, a file no older than `p`. */
  ghost predicate Settled(s: FsState, s0: FsState, config: Config, site: Site, p: Path) {
    && p in s0.entries
    && var d := DstOf(s0, config, site, p);
       && d in s.entries
       && if s0.entries[p].Dir? then s.entries[d].Dir?
          else s.entries[d].File? && p in s.entries
               && s.MtimeOf(s.entries[p].ino) <= s.MtimeOf(s.entries[d].ino)
  }

  /** `d` is as it was in `s0`. */
  ghost predicate Untouched(s: FsState, s0: FsState, d: Path) {
    && (d in s.entries <==> d in s0.entries)
    && (d in s0.entries ==> s.entries[d] == s0.entries[d])
  }

  /** What a step changes: entries only at `d`, times only by growing, and
      the time of an existing inode only for `w`. */
  ghost predicate Frame(s: FsState, s1: FsState, d: Path, w: Option<Ino>) {
    && (forall q :: q != d ==> (q in s1.entries <==> q in s.entries))
    && (forall q :: q != d && q in s.entries ==> s1.entries[q] == s.entries[q])
    && (forall i :: i in s.mtime ==> i in s1.mtime && s1.mtime[i] >= s.mtime[i])
    && (forall i :: i in s.mtime && Some(i) != w ==> s1.mtime[i] == s.mtime[i])
  }

  /** The invariant of the first pass after `k` steps: the sources are as
      they were, the first `k` entries are settled, and the destinations
      of the others are untouched. */
  ghost predicate Inv(s: FsState, s0: FsState, config: Config, site: Site, order: seq<Path>, k: nat) {
    && k <= |order|
    && s.Valid()
    && site.dstRoot in s.entries && s.entries[site.dstRoot].Dir?
    && (forall i :: 0 <= i < |order| && order[i] in s0.entries ==>
          && order[i] in s.entries && s.entries[order[i]] == s0.entries[order[i]]
          && s.MtimeOf(s0.entries[order[i]].ino) == s0.MtimeOf(s0.entries[order[i]].ino))
    && (forall i :: 0 <= i < k ==> Settled(s, s0, config, site, order[i]))
    && (forall i :: k <= i < |order| ==> Untouched(s, s0, DstOf(s0, config, site, order[i])))
  }

  /** A path of the destination tree is no path of the source tree. */
  lemma DisjointTrees(srcRoot: Path, dstRoot: Path, p: Path, d: Path)
    requires !IsPrefix(srcRoot, dstRoot) && !IsPrefix(dstRoot, srcRoot)
    requires IsPrefix(srcRoot, p) && IsPrefix(dstRoot, d)
    ensures p != d
  {
    if p == d {
      PrefixesNest(srcRoot, dstRoot, p);
    }
  }

  /** The destination of an entry lies below the destination root, at the
      same depth, and its parent is the destination of the entry's parent
      (or the destination root). */
  lemma DstShape(s0: FsState, config: Config, site: Site, p: Path)
    requires Below(site.srcRoot, p)
    ensures var d := DstOf(s0, config, site, p);
            && IsPrefix(site.dstRoot, d) && |d| == |site.dstRoot| + |p| - |site.srcRoot|
            && Parent(d) == (if |p| == |site.srcRoot| + 1 then site.dstRoot
                             else Rebase(Parent(p), site.srcRoot, site.dstRoot))
  {
    var rel := p[|site.srcRoot|..];
    var eq := Rebase(p, site.srcRoot, site.dstRoot);
    assert eq == site.dstRoot + rel;
    assert Parent(eq) == site.dstRoot + rel[..|rel| - 1];
    if |p| > |site.srcRoot| + 1 {
      assert Parent(p)[|site.srcRoot|..] == rel[..|rel| - 1];
      assert IsPrefix(site.srcRoot, Parent(p));
    }
    var d := DstOf(s0, config, site, p);
    assert d == eq || d == WithLast(eq, TrimSuffix(LastName(eq), PathExt(eq)) + HtmlExt);
    assert Parent(d) == Parent(eq);
  }

  /** Cleaning maps the destination of a listed entry back to the entry,
      when the entry is not named "*.html" (or the builder's extension is
      ".html"): whatever its kind, `SrcOfFile` undoes `DstOf`. */
  lemma DstOfRoundTrip(s0: FsState, config: Config, site: Site, p: Path)
    requires Below(site.srcRoot, p)
    requires PathExt(p) == HtmlExt ==> config.builder.ext == HtmlExt
    ensures SrcOfFile(DstOf(s0, config, site, p), site.srcRoot, site.dstRoot, config.builder.ext) == p
  {
    var ext := config.builder.ext;
    var eq := Rebase(p, site.srcRoot, site.dstRoot);
    assert LastName(eq) == LastName(p);
    if PathExt(p) == ext {
      ContentRoundTrip(p, site.srcRoot, site.dstRoot, ext);
      if p in s0.entries && s0.entries[p].Dir? {
        if ext == HtmlExt {
          var back := RebaseRenamed(eq, site.dstRoot, site.srcRoot, TrimSuffix(LastName(eq), HtmlExt) + ext);
          assert back == WithLast(p, LastName(p));
          WithLastSame(p);
        }
      }
    } else {
      ResourceRoundTrip(p, site.srcRoot, site.dstRoot, ext);
    }
  }

  /** Two different listed entries have different destinations. */
  lemma DistinctDst(s0: FsState, config: Config, site: Site, order: seq<Path>, i: nat, j: nat)
    requires WellPlaced(s0, config, site, order)
    requires i < |order| && j < |order| && i != j
    ensures DstOf(s0, config, site, order[i]) != DstOf(s0, config, site, order[j])
  {
    DstOfRoundTrip(s0, config, site, order[i]);
    DstOfRoundTrip(s0, config, site, order[j]);
  }

  /** Before step `k`, the parent of its destination is a directory. */
  lemma ParentReady(s: FsState, s0: FsState, config: Config, site: Site, order: seq<Path>, k: nat)
    requires WellPlaced(s0, config, site, order)
    requires Inv(s, s0, config, site, order, k) && k < |order|
    ensures var d := DstOf(s0, config, site, order[k]);
            |d| > 1 && Parent(d) in s.entries && s.entries[Parent(d)].Dir? && IsPrefix(site.dstRoot, d)
            && |d| > |site.dstRoot|
  {
    var q := order[k];
    DstShape(s0, config, site, q);
    if |q| > |site.srcRoot| + 1 {
      var j :| 0 <= j < k && order[j] == Parent(q);
      assert Settled(s, s0, config, site, order[j]);
    }
  }

  /** `os.MkdirAll` of a path whose parent is a directory makes at most that one path. */
  lemma MkdirAllOne(s: FsState, d: Path)
    requires |d| > 1 && Parent(d) in s.entries && s.entries[Parent(d)].Dir?
    ensures s.MkdirAll(d) == if d in s.entries then (if s.entries[d].Dir? then Ok(s) else Err(ENOTDIR))
                             else Ok(s.Create(d, true, ""))
  {
  }

  /** A finished step on a directory: its destination is a directory, and
      only a new inode gets a time. */
  lemma DirSettles(s: FsState, s0: FsState, config: Config, site: Site, host: Host, q: Path)
    requires s.Valid() && q != site.srcRoot && q in s.entries && q in s0.entries
    requires s.entries[q] == s0.entries[q] && s.entries[q].Dir?
    requires var d := DstOf(s0, config, site, q); |d| > 1 && Parent(d) in s.entries && s.entries[Parent(d)].Dir?
    requires BuildEntry(s, config, site, host, q).outcome == Done
    ensures var s1 := BuildEntry(s, config, site, host, q).state;
            var d := DstOf(s0, config, site, q);
            && Frame(s, s1, d, None) && s1.Valid()
            && d in s1.entries && s1.entries[d].Dir?
  {
    MkdirAllOne(s, DstOf(s0, config, site, q));
  }

  /** A finished step on a content file: its page is a file no older than
      the source, and only the page's own inode (or a new one) gets a new
      time. */
  lemma ContentSettles(s: FsState, s0: FsState, config: Config, site: Site, host: Host, q: Path)
    requires s.Valid() && q != site.srcRoot && q in s.entries && q in s0.entries
    requires s.entries[q] == s0.entries[q] && s.entries[q].File? && IsContent(config, site, q)
    requires var d := DstOf(s0, config, site, q);
             && d != q && |d| > 1 && Parent(d) in s.entries && s.entries[Parent(d)].Dir?
             && (d in s.entries ==> s.entries[d].File?)
    requires BuildEntry(s, config, site, host, q).outcome == Done
    ensures var s1 := BuildEntry(s, config, site, host, q).state;
            var d := DstOf(s0, config, site, q);
            && Frame(s, s1, d, if d in s.entries then Some(s.entries[d].ino) else None) && s1.Valid()
            && d in s1.entries && s1.entries[d].File? && q in s1.entries && s1.entries[q] == s.entries[q]
            && s1.MtimeOf(s.entries[q].ino) <= s1.MtimeOf(s1.entries[d].ino)
  {
    var d := DstOf(s0, config, site, q);
    var r := BuildEntry(s, config, site, host, q);
    if d !in s.entries || s.MtimeOf(s.entries[q].ino) > s.MtimeOf(s.entries[d].ino) {
      var page := BuildPageStep(s, config, site, host, q, d);
      assert r.state == page.state && page.outcome == Done;
      var env := CommandEnv(host.environ, q, d, config.builder.bin, site.name, site.env);
      var text := Expand(s.ReadFile(site.tplPath).value, config.runCmd, env, host.run).value;
      assert page.state == s.WriteFile(d, text).value;
      PageWriteSettles(s, q, d, text);
    } else {
      assert r.state == s;
    }
  }

  /** Writing the page of `q`: a file stamped with the clock, which is
      after the source's time. */
  lemma PageWriteSettles(s: FsState, q: Path, d: Path, text: string)
    requires s.Valid() && q in s.entries && d != q && |d| > 1 && Parent(d) in s.entries && s.entries[Parent(d)].Dir?
    requires d in s.entries ==> s.entries[d].File?
    ensures s.WriteFile(d, text).Ok?
    ensures var s1 := s.WriteFile(d, text).value;
            && Frame(s, s1, d, if d in s.entries then Some(s.entries[d].ino) else None) && s1.Valid()
            && d in s1.entries && s1.entries[d].File? && q in s1.entries && s1.entries[q] == s.entries[q]
            && s1.MtimeOf(s.entries[q].ino) <= s1.MtimeOf(s1.entries[d].ino)
  {
    assert s.entries[q].ino in s.mtime;
  }

  /** A finished step on a resource: its copy is a link to the source's
      inode, and no time changes. */
  lemma ResourceSettles(s: FsState, s0: FsState, config: Config, site: Site, host: Host, q: Path)
    requires s.Valid() && q != site.srcRoot && q in s.entries && q in s0.entries
    requires s.entries[q] == s0.entries[q] && s.entries[q].File? && !IsContent(config, site, q)
    requires var d := DstOf(s0, config, site, q);
             && d != q && |d| > 1 && Parent(d) in s.entries && s.entries[Parent(d)].Dir?
             && (d in s.entries ==> s.entries[d].File?)
    requires BuildEntry(s, config, site, host, q).outcome == Done
    ensures var s1 := BuildEntry(s, config, site, host, q).state;
            var d := DstOf(s0, config, site, q);
            && Frame(s, s1, d, None) && s1.Valid()
            && d in s1.entries && s1.entries[d].File? && q in s1.entries && s1.entries[q] == s.entries[q]
            && s1.MtimeOf(s.entries[q].ino) <= s1.MtimeOf(s1.entries[d].ino)
  {
    var d := DstOf(s0, config, site, q);
    assert d == DstOfFile(q, site.srcRoot, site.dstRoot, config.builder.ext);
    assert PathExt(Rebase(q, site.srcRoot, site.dstRoot)) != config.builder.ext;
    assert BuildEntry(s, config, site, host, q) == BuildResource(s, q, s.Stat(q).value, d);
    ResourceStepSettles(s, q, s.Stat(q).value, d);
  }

  /** `ResourceSettles` for the step itself, once the destination is known. */
  lemma ResourceStepSettles(s: FsState, q: Path, info: Info, d: Path)
    requires s.Valid() && q in s.entries && s.entries[q].File? && s.Stat(q) == Ok(info)
    requires d != q && |d| > 1 && Parent(d) in s.entries && s.entries[Parent(d)].Dir?
    requires d in s.entries ==> s.entries[d].File?
    requires BuildResource(s, q, info, d).outcome == Done
    ensures var s1 := BuildResource(s, q, info, d).state;
            && Frame(s, s1, d, None) && s1.Valid()
            && d in s1.entries && s1.entries[d].File? && q in s1.entries && s1.entries[q] == s.entries[q]
            && s1.MtimeOf(s.entries[q].ino) <= s1.MtimeOf(s1.entries[d].ino)
  {
    if d !in s.entries {
      assert s.Link(q, d).Ok?;
    } else if s.MtimeOf(s.entries[q].ino) > s.MtimeOf(s.entries[d].ino) {
      var s1 := s.Remove(d).value;
      assert s1.Link(q, d).Ok?;
    }
  }

  /** A step that keeps to its frame keeps every other entry settled. */
  lemma FrameKeepsSettled(s: FsState, s1: FsState, s0: FsState, config: Config, site: Site,
                          p: Path, d: Path, w: Option<Ino>)
    requires s.Valid() && Frame(s, s1, d, w) && Settled(s, s0, config, site, p)
    requires DstOf(s0, config, site, p) != d && p != d
    requires w.Some? && s0.entries[p].File? ==> w.value != s.entries[p].ino
    ensures Settled(s1, s0, config, site, p)
  {
    var dp := DstOf(s0, config, site, p);
    if s0.entries[p].File? {
      assert s.entries[p].ino in s.mtime && s.entries[dp].ino in s.mtime;
    }
  }

  /** What one finished step does: it keeps to the frame of its own
      destination, settles its entry, and writes no source inode. */
  lemma StepEffect(s: FsState, s0: FsState, config: Config, site: Site, host: Host, order: seq<Path>, k: nat)
    returns (w: Option<Ino>)
    requires WellPlaced(s0, config, site, order)
    requires Inv(s, s0, config, site, order, k) && k < |order|
    requires BuildEntry(s, config, site, host, order[k]).outcome == Done
    ensures var s1 := BuildEntry(s, config, site, host, order[k]).state;
            var d := DstOf(s0, config, site, order[k]);
            && Frame(s, s1, d, w) && s1.Valid() && Settled(s1, s0, config, site, order[k])
            && IsPrefix(site.dstRoot, d) && |d| > |site.dstRoot|
            && (w.Some? ==> forall j :: 0 <= j < |order| ==> w.value != s0.entries[order[j]].ino)
  {
    var q := order[k];
    var d := DstOf(s0, config, site, q);
    ParentReady(s, s0, config, site, order, k);
    DisjointTrees(site.srcRoot, site.dstRoot, q, d);
    assert Untouched(s, s0, d);
    w := None;
    if s0.entries[q].Dir? {
      DirSettles(s, s0, config, site, host, q);
    } else if IsContent(config, site, q) {
      ContentSettles(s, s0, config, site, host, q);
      w := if d in s.entries then Some(s.entries[d].ino) else None;
    } else {
      ResourceSettles(s, s0, config, site, host, q);
    }
  }

  /** A step that keeps to the frame of a destination keeps a source entry
      and its time, unless it writes the entry's inode. */
  lemma FrameKeepsSource(s: FsState, s1: FsState, s0: FsState, srcRoot: Path, dstRoot: Path,
                         p: Path, d: Path, w: Option<Ino>)
    requires s.Valid() && Frame(s, s1, d, w)
    requires !IsPrefix(srcRoot, dstRoot) && !IsPrefix(dstRoot, srcRoot)
    requires Below(srcRoot, p) && IsPrefix(dstRoot, d)
    requires p in s0.entries && p in s.entries && s.entries[p] == s0.entries[p]
    requires s.MtimeOf(s0.entries[p].ino) == s0.MtimeOf(s0.entries[p].ino)
    requires w.Some? ==> w.value != s0.entries[p].ino
    ensures p in s1.entries && s1.entries[p] == s0.entries[p]
    ensures s1.MtimeOf(s0.entries[p].ino) == s0.MtimeOf(s0.entries[p].ino)
  {
    DisjointTrees(srcRoot, dstRoot, p, d);
    assert s0.entries[p].ino in s.mtime;
  }

  /** A step that keeps to the frame of `d` leaves any other path untouched. */
  lemma FrameKeepsUntouched(s: FsState, s1: FsState, s0: FsState, d: Path, e: Path, w: Option<Ino>)
    requires Frame(s, s1, d, w) && e != d && Untouched(s, s0, e)
    ensures Untouched(s1, s0, e)
  {
  }

  /** A step that keeps to the frame of the next destination and settles
      its entry keeps the invariant, with one more entry settled. */
  lemma FramedStepKeepsInv(s: FsState, s1: FsState, s0: FsState, config: Config, site: Site,
                           order: seq<Path>, k: nat, w: Option<Ino>)
    requires WellPlaced(s0, config, site, order)
    requires Inv(s, s0, config, site, order, k) && k < |order|
    requires var d := DstOf(s0, config, site, order[k]);
             && Frame(s, s1, d, w) && s1.Valid() && Settled(s1, s0, config, site, order[k])
             && IsPrefix(site.dstRoot, d) && |d| > |site.dstRoot|
             && (w.Some? ==> forall j :: 0 <= j < |order| ==> w.value != s0.entries[order[j]].ino)
    ensures Inv(s1, s0, config, site, order, k + 1)
  {
    var d := DstOf(s0, config, site, order[k]);
    forall i | 0 <= i < |order| && order[i] in s0.entries
      ensures && order[i] in s1.entries && s1.entries[order[i]] == s0.entries[order[i]]
              && s1.MtimeOf(s0.entries[order[i]].ino) == s0.MtimeOf(s0.entries[order[i]].ino)
    {
      FrameKeepsSource(s, s1, s0, site.srcRoot, site.dstRoot, order[i], d, w);
    }
    forall i | 0 <= i < k
      ensures Settled(s1, s0, config, site, order[i])
    {
      DistinctDst(s0, config, site, order, i, k);
      DisjointTrees(site.srcRoot, site.dstRoot, order[i], d);
      FrameKeepsSettled(s, s1, s0, config, site, order[i], d, w);
    }
    forall i | k + 1 <= i < |order|
      ensures Untouched(s1, s0, DstOf(s0, config, site, order[i]))
    {
      DistinctDst(s0, config, site, order, i, k);
      FrameKeepsUntouched(s, s1, s0, d, DstOf(s0, config, site, order[i]), w);
    }
    assert |d| > |site.dstRoot|;
  }

  /** One finished step keeps the invariant, with one more entry settled. */
  lemma StepKeepsInv(s: FsState, s0: FsState, config: Config, site: Site, host: Host, order: seq<Path>, k: nat)
    requires WellPlaced(s0, config, site, order)
    requires Inv(s, s0, config, site, order, k) && k < |order|
    requires BuildEntry(s, config, site, host, order[k]).outcome == Done
    ensures Inv(BuildEntry(s, config, site, host, order[k]).state, s0, config, site, order, k + 1)
  {
    var w := StepEffect(s, s0, config, site, host, order, k);
    FramedStepKeepsInv(s, BuildEntry(s, config, site, host, order[k]).state, s0, config, site, order, k, w);
  }

  /** The whole first pass keeps the invariant, ending with every entry settled. */
  lemma {:induction false} WalkKeepsInv(s: FsState, s0: FsState, config: Config, site: Site, host: Host,
                                        order: seq<Path>, k: nat)
    requires WellPlaced(s0, config, site, order)
    requires Inv(s, s0, config, site, order, k)
    requires BuildWalk(s, config, site, host, order[k..]).outcome == Done
    ensures Inv(BuildWalk(s, config, site, host, order[k..]).state, s0, config, site, order, |order|)
    decreases |order| - k
  {
    if k < |order| {
      assert order[k..][0] == order[k] && order[k..][1..] == order[k + 1..];
      var r := BuildEntry(s, config, site, host, order[k]);
      StepKeepsInv(s, s0, config, site, host, order, k);
      WalkKeepsInv(r.state, s0, config, site, host, order, k + 1);
    }
  }

  /** A settled entry is visited without any change or event. */
  lemma SettledIsQuiet(s: FsState, s0: FsState, config: Config, site: Site, host: Host, p: Path)
    requires Below(site.srcRoot, p) && p in s.entries && p in s0.entries && s.entries[p] == s0.entries[p]
    requires Settled(s, s0, config, site, p)
    ensures BuildEntry(s, config, site, host, p) == Unchanged(s)
  {
  }

  /** A walk over entries that each leave the state alone leaves it alone. */
  lemma {:induction false} QuietWalk(s: FsState, config: Config, site: Site, host: Host, order: seq<Path>)
    requires forall i :: 0 <= i < |order| ==> BuildEntry(s, config, site, host, order[i]) == Unchanged(s)
    ensures BuildWalk(s, config, site, host, order) == Unchanged(s)
    decreases |order|
  {
    if order != [] {
      assert BuildEntry(s, config, site, host, order[0]) == Unchanged(s);
      QuietWalk(s, config, site, host, order[1..]);
    }
  }

  /** Idempotence of the source walk: after a pass that finishes, a second
      pass over the same entries changes nothing and prints nothing. */
  lemma BuildWalkIdempotent(s0: FsState, config: Config, site: Site, host: Host, order: seq<Path>)
    requires WellPlaced(s0, config, site, order)
    requires BuildWalk(s0, config, site, host, order).outcome == Done
    ensures var s1 := BuildWalk(s0, config, site, host, order).state;
            BuildWalk(s1, config, site, host, order) == Unchanged(s1)
  {
    assert order[0..] == order;
    WalkKeepsInv(s0, s0, config, site, host, order, 0);
    var s1 := BuildWalk(s0, config, site, host, order).state;
    AllSettledQuiet(s1, s0, config, site, host, order);
    QuietWalk(s1, config, site, host, order);
  }

  /** Once every entry is settled, every entry is visited quietly. */
  lemma AllSettledQuiet(s: FsState, s0: FsState, config: Config, site: Site, host: Host, order: seq<Path>)
    requires WellPlaced(s0, config, site, order)
    requires Inv(s, s0, config, site, order, |order|)
    ensures forall i :: 0 <= i < |order| ==> BuildEntry(s, config, site, host, order[i]) == Unchanged(s)
  {
    forall i | 0 <= i < |order|
      ensures BuildEntry(s, config, site, host, order[i]) == Unchanged(s)
    {
      SettledIsQuiet(s, s0, config, site, host, order[i]);
    }
  }

  /** Why the second condition of `WellPlaced` is needed: a resource named
      "x.html" (with another builder extension) is taken back by the clean
      walk to "x" plus the builder's extension. When no such source
      exists, every run removes the link and the source walk then links it
      again, printing ` - d` and ` + d`. */
  lemma HtmlResourceChurns(s: FsState, config: Config, site: Site, host: Host, p: Path)
    requires !IsPrefix(site.srcRoot, site.dstRoot) && !IsPrefix(site.dstRoot, site.srcRoot)
    requires Below(site.srcRoot, p) && p in s.entries && s.entries[p].File?
    requires PathExt(p) == HtmlExt && config.builder.ext != HtmlExt
    requires s.Stat(WithLast(p, TrimSuffix(LastName(p), HtmlExt) + config.builder.ext)) == Err(ENOENT)
    requires var d := DstOfFile(p, site.srcRoot, site.dstRoot, config.builder.ext);
             && d in s.entries && s.entries[d] == s.entries[p]
             && |d| > 1 && Parent(d) in s.entries && s.entries[Parent(d)].Dir?
    ensures var d := DstOfFile(p, site.srcRoot, site.dstRoot, config.builder.ext);
            var c := CleanEntry(s, config, site, host, d);
            var b := BuildEntry(c.state, config, site, host, p);
            && c == Step(s.RemoveAll(d), Done, [Removed(d)])
            && b.outcome == Done && b.events == [Added(d)]
            && d in b.state.entries && b.state.entries[d] == s.entries[p]
  {
    var d := DstOfFile(p, site.srcRoot, site.dstRoot, config.builder.ext);
    HtmlCopyPath(p, site.srcRoot, site.dstRoot, config.builder.ext);
    MissingSourceDropsFile(s, config, site, host, d);
    RemovedCopyReady(s, p, d);
    ResourceRelinked(s.RemoveAll(d), config, site, host, p, d);
  }

  /** Once the copy `d` is removed, the source `p` and the copy's parent
      are still there and `d` is free. */
  lemma RemovedCopyReady(s: FsState, p: Path, d: Path)
    requires !IsPrefix(d, p) && p in s.entries && |d| > 1 && Parent(d) in s.entries
    ensures var s1 := s.RemoveAll(d);
            && p in s1.entries && s1.entries[p] == s.entries[p] && d !in s1.entries
            && Parent(d) in s1.entries && s1.entries[Parent(d)] == s.entries[Parent(d)]
  {
    assert IsPrefix(d, d);
    assert !IsPrefix(d, Parent(d));
  }

  /** The copy of a resource named "x.html" keeps its name, lies in the
      destination tree, and is taken back to "x" plus the builder's extension. */
  lemma HtmlCopyPath(p: Path, srcRoot: Path, dstRoot: Path, builderExt: string)
    requires !IsPrefix(srcRoot, dstRoot) && !IsPrefix(dstRoot, srcRoot)
    requires Below(srcRoot, p) && PathExt(p) == HtmlExt && builderExt != HtmlExt
    ensures var d := DstOfFile(p, srcRoot, dstRoot, builderExt);
            && d == Rebase(p, srcRoot, dstRoot) && PathExt(d) == HtmlExt
            && IsPrefix(dstRoot, d) && |d| > |dstRoot| && !IsPrefix(d, p)
            && SrcOfFile(d, srcRoot, dstRoot, builderExt) == WithLast(p, TrimSuffix(LastName(p), HtmlExt) + builderExt)
  {
    var d := Rebase(p, srcRoot, dstRoot);
    var _ := RebaseRenamed(p, srcRoot, dstRoot, LastName(p));
    assert DstOfFile(p, srcRoot, dstRoot, builderExt) == d;
    HtmlResourceMismapped(p, srcRoot, dstRoot, builderExt);
    CopyNotAbove(p, srcRoot, dstRoot, d);
  }

  /** A path of the destination tree is no prefix of a path of the source tree. */
  lemma CopyNotAbove(p: Path, srcRoot: Path, dstRoot: Path, d: Path)
    requires !IsPrefix(srcRoot, dstRoot) && !IsPrefix(dstRoot, srcRoot)
    requires IsPrefix(srcRoot, p) && IsPrefix(dstRoot, d)
    ensures !IsPrefix(d, p)
  {
    if IsPrefix(d, p) {
      UnderRoot(dstRoot, d, p);
      PrefixesNest(srcRoot, dstRoot, p);
    }
  }

  /** A destination file whose source counterpart does not exist is removed
      with a ` - ` event. */
  lemma MissingSourceDropsFile(s: FsState, config: Config, site: Site, host: Host, d: Path)
    requires d != site.dstRoot && d in s.entries && s.entries[d].File?
    requires s.Stat(SrcOfFile(d, site.srcRoot, site.dstRoot, config.builder.ext)) == Err(ENOENT)
    ensures CleanEntry(s, config, site, host, d) == Step(s.RemoveAll(d), Done, [Removed(d)])
  {
  }

  /** A resource whose copy is missing, in a directory that exists, is
      linked with a ` + ` event. */
  lemma ResourceRelinked(s: FsState, config: Config, site: Site, host: Host, p: Path, d: Path)
    requires p != site.srcRoot && p in s.entries && s.entries[p].File?
    requires PathExt(Rebase(p, site.srcRoot, site.dstRoot)) != config.builder.ext
    requires d == DstOfFile(p, site.srcRoot, site.dstRoot, config.builder.ext)
    requires d !in s.entries && |d| > 1 && Parent(d) in s.entries && s.entries[Parent(d)].Dir?
    ensures var b := BuildEntry(s, config, site, host, p);
            && b.outcome == Done && b.events == [Added(d)]
            && d in b.state.entries && b.state.entries[d] == s.entries[p]
  {
  }
}
