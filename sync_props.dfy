/** What the build and clean walks promise, entry by entry and walk by walk. */
module SyncProps {
  import opened Wrappers
  import opened Paths
  import opened Template
  import opened Fs
  import opened Sync

  /** A page that is built holds the expanded template and the clock's time;
      an unreadable template fails the step, and a template with a block
      but no `RunCmd` panics (main.go:140-143, 154, 175). A write that
      fails (the page is a directory, or its parent is missing) is
      dropped: the step still finishes and nothing changes. */
  lemma PageBuilt(s: FsState, config: Config, site: Site, host: Host, srcPath: Path, page: Path)
    ensures var r := BuildPageStep(s, config, site, host, srcPath, page);
            var env := CommandEnv(host.environ, srcPath, page, config.builder.bin, site.name, site.env);
            && r.events == []
            && (s.ReadFile(site.tplPath).Err? ==> r == Fail(s, s.ReadFile(site.tplPath).errno))
            && (s.ReadFile(site.tplPath).Ok? && |config.runCmd| == 0 && Matches(s.ReadFile(site.tplPath).value) != [] ==>
                  r.outcome == Panicked && r.state == s)
            && (r.outcome == Done <==> s.ReadFile(site.tplPath).Ok?
                                       && Expand(s.ReadFile(site.tplPath).value, config.runCmd, env, host.run).Some?)
            && (r.outcome == Done ==>
                  var text := Expand(s.ReadFile(site.tplPath).value, config.runCmd, env, host.run).value;
                  && (s.WriteFile(page, text).Ok? ==>
                        && page in r.state.entries && r.state.entries[page].File?
                        && r.state.ReadFile(page) == Ok(text)
                        && r.state.MtimeOf(r.state.entries[page].ino) == s.clock)
                  && (s.WriteFile(page, text).Err? ==> r == Unchanged(s)))
  {
    var r := BuildPageStep(s, config, site, host, srcPath, page);
    if r.outcome == Done {
      var env := CommandEnv(host.environ, srcPath, page, config.builder.bin, site.name, site.env);
      var text := Expand(s.ReadFile(site.tplPath).value, config.runCmd, env, host.run).value;
      if s.WriteFile(page, text).Ok? {
        s.WriteThenRead(page, text, page);
      }
    }
  }

  /** The content-file decision of the source walk (main.go:100-115): a
      missing page is built and announced with `+`; a page older than its
      source is rebuilt and announced with `^`; a failing build ends the
      walk with its outcome; anything else leaves the state as it was. */
  lemma ContentDecision(s: FsState, config: Config, site: Site, host: Host, p: Path)
    requires p != site.srcRoot && p in s.entries && s.entries[p].File?
    requires PathExt(Rebase(p, site.srcRoot, site.dstRoot)) == config.builder.ext
    ensures var page := DstOfFile(p, site.srcRoot, site.dstRoot, config.builder.ext);
            var r := BuildEntry(s, config, site, host, p);
            var b := BuildPageStep(s, config, site, host, p, page);
            var missing := s.Stat(page) == Err(ENOENT);
            var stale := page in s.entries && s.MtimeOf(s.entries[p].ino) > s.MtimeOf(s.entries[page].ino);
            && (missing || stale ==> r.state == b.state && r.outcome == b.outcome)
            && (missing && b.outcome == Done ==> r.events == [Added(page)])
            && (stale && b.outcome == Done ==> r.events == [Updated(page)])
            && (b.outcome != Done ==> r.events == [])
            && (!missing && !stale ==> r == Unchanged(s))
  {
    var page := DstOfFile(p, site.srcRoot, site.dstRoot, config.builder.ext);
    var srcInfo := s.Stat(p).value;
    assert BuildEntry(s, config, site, host, p) == BuildContent(s, config, site, host, p, srcInfo, page);
    assert srcInfo.mtime == s.MtimeOf(s.entries[p].ino);
    ContentCases(s, config, site, host, p, srcInfo, page);
    PageStepSilent(s, config, site, host, p, page);
  }

  /** Building a page prints nothing itself; the walk announces it. */
  lemma PageStepSilent(s: FsState, config: Config, site: Site, host: Host, srcPath: Path, page: Path)
    ensures BuildPageStep(s, config, site, host, srcPath, page).events == []
  {
    match s.ReadFile(site.tplPath)
    case Err(e) =>
    case Ok(tpl) =>
  }

  /** `BuildContent` by cases on the lookup of the page. */
  lemma ContentCases(s: FsState, config: Config, site: Site, host: Host, p: Path, srcInfo: Info, page: Path)
    ensures var r := BuildContent(s, config, site, host, p, srcInfo, page);
            var b := BuildPageStep(s, config, site, host, p, page);
            var missing := s.Stat(page) == Err(ENOENT);
            var stale := page in s.entries && srcInfo.mtime > s.MtimeOf(s.entries[page].ino);
            && (missing ==> r == Announce(b, Added(page)))
            && (stale ==> r == Announce(b, Updated(page)))
            && (!missing && !stale ==> r == Unchanged(s))
  {
    match s.Stat(page)
    case Err(e) =>
      assert page !in s.entries;
    case Ok(dstInfo) =>
      assert dstInfo.mtime == s.MtimeOf(s.entries[page].ino);
  }

  /** The resource decision of the source walk (main.go:116-133): a missing
      copy becomes a hard link to the source, announced with `+`; a copy
      older than its source is removed and linked again, announced with
      `^`; a failing remove or link ends the walk with its error; anything
      else leaves the state as it was. */
  lemma ResourceDecision(s: FsState, config: Config, site: Site, host: Host, p: Path)
    requires p != site.srcRoot && p in s.entries && s.entries[p].File?
    requires PathExt(Rebase(p, site.srcRoot, site.dstRoot)) != config.builder.ext
    ensures var dst := Rebase(p, site.srcRoot, site.dstRoot);
            var r := BuildEntry(s, config, site, host, p);
            var missing := s.Stat(dst) == Err(ENOENT);
            var stale := dst in s.entries && s.MtimeOf(s.entries[p].ino) > s.MtimeOf(s.entries[dst].ino);
            && DstOfFile(p, site.srcRoot, site.dstRoot, config.builder.ext) == dst
            && (missing ==> (r.outcome == Done <==> s.Link(p, dst).Ok?))
            && (missing && r.outcome == Done ==>
                  r.events == [Added(dst)] && r.state.entries == s.entries[dst := File(s.entries[p].ino)])
            && (missing && r.outcome != Done ==> r == Fail(s, s.Link(p, dst).errno))
            && (stale ==> (r.outcome == Done <==> s.Remove(dst).Ok? && s.Remove(dst).value.Link(p, dst).Ok?))
            && (stale && r.outcome == Done ==>
                  r.events == [Updated(dst)] && r.state.entries == s.entries[dst := File(s.entries[p].ino)])
            && (stale && s.Remove(dst).Err? ==> r == Fail(s, s.Remove(dst).errno))
            && (stale && s.Remove(dst).Ok? && s.Remove(dst).value.Link(p, dst).Err? ==>
                  r == Fail(s.Remove(dst).value, s.Remove(dst).value.Link(p, dst).errno))
            && (!missing && !stale ==> r == Unchanged(s))
            && (r.outcome == Done ==> r.state.mtime == s.mtime && r.state.data == s.data)
  {
    var dst := Rebase(p, site.srcRoot, site.dstRoot);
    if dst in s.entries && s.MtimeOf(s.entries[p].ino) > s.MtimeOf(s.entries[dst].ino) && s.Remove(dst).Ok? {
      var s1 := s.Remove(dst).value;
      assert s1.entries == s.entries - {dst};
      if s1.Link(p, dst).Ok? {
        assert s1.entries[dst := File(s.entries[p].ino)] == s.entries[dst := File(s.entries[p].ino)];
      }
    }
  }

  /** A directory of the source tree is mirrored (main.go:82-88): after a
      step that finishes, the corresponding destination is a directory and
      every earlier entry is still there. */
  lemma DirectoryMirrored(s: FsState, config: Config, site: Site, host: Host, p: Path)
    requires p != site.srcRoot && p in s.entries && s.entries[p].Dir?
    ensures var r := BuildEntry(s, config, site, host, p);
            var dst := Rebase(p, site.srcRoot, site.dstRoot);
            && (r.outcome == Done <==> s.MkdirAll(dst).Ok?)
            && r.events == []
            && (r.outcome == Done ==> dst in r.state.entries && r.state.entries[dst].Dir?
                                      && forall q :: q in s.entries ==> q in r.state.entries && r.state.entries[q] == s.entries[q])
  {
  }

  /** The directory decision of the clean walk (main.go:191-200): a
      directory goes, with everything below it and a single `-` event,
      exactly when its source counterpart is missing or is not a directory;
      the walk then ends on the failed read of the removed directory. A
      counterpart that is a directory keeps it; any other lookup error is a
      nil dereference. */
  lemma CleanDirectoryDecision(s: FsState, config: Config, site: Site, host: Host, p: Path)
    requires p != site.dstRoot && p in s.entries && s.entries[p].Dir?
    ensures var src := Rebase(p, site.dstRoot, site.srcRoot);
            var r := CleanEntry(s, config, site, host, p);
            var gone := s.Stat(src) == Err(ENOENT) || (src in s.entries && s.entries[src].File?);
            && (r.events == [RemovedTree(p)] <==> gone)
            && (gone ==> r.outcome == Failed(Sys(ENOENT))
                         && forall q :: q in r.state.entries <==> q in s.entries && !IsPrefix(p, q))
            && (src in s.entries && s.entries[src].Dir? ==> r == Unchanged(s))
            && (s.Stat(src) == Err(ENOTDIR) ==> r == Step(s, Panicked, []))
  {
  }

  /** The file decision of the clean walk (main.go:201-231): a file goes,
      with a `-` event, exactly when its source counterpart is missing, or
      it is not a page and is not the same inode as its counterpart. A page
      whose counterpart exists is never removed; a missing `Stat_t` is an
      error rather than a removal; a lookup error other than "does not
      exist" on a non-page is a nil dereference. */
  lemma CleanFileDecision(s: FsState, config: Config, site: Site, host: Host, p: Path)
    requires p != site.dstRoot && p in s.entries && s.entries[p].File?
    ensures var src := SrcOfFile(p, site.srcRoot, site.dstRoot, config.builder.ext);
            var r := CleanEntry(s, config, site, host, p);
            var missing := s.Stat(src) == Err(ENOENT);
            var other := src in s.entries && host.statT && PathExt(p) != HtmlExt
                         && s.entries[src].ino != s.entries[p].ino;
            && (r.events == [Removed(p)] <==> missing || other)
            && (missing || other ==> r.outcome == Done && r.state == s.RemoveAll(p))
            && (src in s.entries && PathExt(p) == HtmlExt ==> p in r.state.entries)
            && (src in s.entries && !host.statT ==> r == Step(s, Failed(NoStatT), []))
            && (s.Stat(src) == Err(ENOTDIR) ==> r.outcome == (if PathExt(p) == HtmlExt then Done else Panicked))
            && (r.outcome == Done && !missing && !other ==> r == Unchanged(s))
  {
    var src := SrcOfFile(p, site.srcRoot, site.dstRoot, config.builder.ext);
    if src in s.entries && PathExt(p) == HtmlExt {
      assert IsPrefix(p, p);
    }
  }

  /** One step of the clean walk does nothing, removes one entry and its
      subtree and goes on, or removes a directory tree and ends the walk;
      otherwise it fails or panics without changing anything. */
  lemma CleanEntryShape(s: FsState, config: Config, site: Site, host: Host, p: Path)
    ensures var r := CleanEntry(s, config, site, host, p);
            || (r.events == [] && r.state == s)
            || (r.events == [Removed(p)] && r.outcome == Done && r.state == s.RemoveAll(p))
            || (r.events == [RemovedTree(p)] && r.outcome == Failed(Sys(ENOENT)) && r.state == s.RemoveAll(p))
  {
    if p != site.dstRoot && p in s.entries {
      if s.entries[p].Dir? {
        CleanDirShape(s, config, site, host, p);
      } else {
        CleanFileShape(s, config, site, host, p);
      }
    }
  }

  lemma CleanDirShape(s: FsState, config: Config, site: Site, host: Host, p: Path)
    requires p != site.dstRoot && p in s.entries && s.entries[p].Dir?
    ensures var r := CleanEntry(s, config, site, host, p);
            || (r.events == [] && r.state == s)
            || (r.events == [RemovedTree(p)] && r.outcome == Failed(Sys(ENOENT)) && r.state == s.RemoveAll(p))
  {
  }

  lemma CleanFileShape(s: FsState, config: Config, site: Site, host: Host, p: Path)
    requires p != site.dstRoot && p in s.entries && s.entries[p].File?
    ensures var r := CleanEntry(s, config, site, host, p);
            || (r.events == [] && r.state == s)
            || (r.events == [Removed(p)] && r.outcome == Done && r.state == s.RemoveAll(p))
  {
  }

  /** A removed directory tree can only be the last event, of a walk that
      ended on the failed read of that directory. */
  predicate PrunesLast(r: Step) {
    forall k :: 0 <= k < |r.events| && r.events[k].RemovedTree? ==>
      k == |r.events| - 1 && r.outcome == Failed(Sys(ENOENT))
  }

  /** The clean walk removes at most one directory tree, and when it does
      that is its last event and it ends on the failed read of that
      directory (`filepath.WalkDir` reports the error to the callback,
      which returns it, main.go:181-183). */
  lemma {:induction false} CleanPrunesAtMostOnce(s: FsState, config: Config, site: Site, host: Host,
                                                 order: seq<Path>)
    ensures PrunesLast(CleanWalk(s, config, site, host, order))
    decreases |order|
  {
    if order != [] {
      var r0 := CleanEntry(s, config, site, host, order[0]);
      CleanEntryShape(s, config, site, host, order[0]);
      if r0.outcome == Done {
        var rest := CleanWalk(r0.state, config, site, host, order[1..]);
        CleanPrunesAtMostOnce(r0.state, config, site, host, order[1..]);
        assert CleanWalk(s, config, site, host, order) == Prepend(r0.events, rest);
        PrependRemovalPrunesLast(r0.events, rest);
      } else {
        assert CleanWalk(s, config, site, host, order) == r0;
      }
    }
  }

  /** Events before a walk that prunes last, none of them a pruning, keep
      the pruning last. */
  lemma PrependRemovalPrunesLast(events: seq<Event>, rest: Step)
    requires PrunesLast(rest)
    requires forall k :: 0 <= k < |events| ==> !events[k].RemovedTree?
    ensures PrunesLast(Prepend(events, rest))
  {
    var r := Prepend(events, rest);
    forall k | 0 <= k < |r.events| && r.events[k].RemovedTree?
      ensures k == |r.events| - 1 && r.outcome == Failed(Sys(ENOENT))
    {
      assert k >= |events|;
      assert r.events[k] == rest.events[k - |events|];
    }
  }

  /** The clean walk only removes: it creates nothing, changes no entry it
      keeps, leaves every time and text alone, and what it removes lies
      under one of the visited paths. */
  lemma {:induction false} CleanOnlyRemoves(s: FsState, config: Config, site: Site, host: Host,
                                            order: seq<Path>)
    ensures var r := CleanWalk(s, config, site, host, order);
            && (forall q :: q in r.state.entries ==> q in s.entries && r.state.entries[q] == s.entries[q])
            && (forall q :: q in s.entries && q !in r.state.entries ==> exists v :: v in order && IsPrefix(v, q))
            && r.state.mtime == s.mtime && r.state.data == s.data && r.state.clock == s.clock
    decreases |order|
  {
    if order != [] {
      var r0 := CleanEntry(s, config, site, host, order[0]);
      CleanEntryShape(s, config, site, host, order[0]);
      if r0.outcome == Done {
        CleanOnlyRemoves(r0.state, config, site, host, order[1..]);
        var r := CleanWalk(s, config, site, host, order);
        assert r.state == CleanWalk(r0.state, config, site, host, order[1..]).state;
        forall q | q in s.entries && q !in r.state.entries
          ensures exists v :: v in order && IsPrefix(v, q)
        {
          if q in r0.state.entries {
            var v :| v in order[1..] && IsPrefix(v, q);
            assert v in order;
          } else {
            assert IsPrefix(order[0], q);
          }
        }
      } else if r0.state != s {
        assert order[0] in order;
      }
    }
  }

  /** Every entry outside `root` is still there, as it was (new entries may
      appear anywhere). */
  ghost predicate KeepsOutside(s: FsState, s1: FsState, root: Path) {
    forall q :: q in s.entries && !IsPrefix(root, q) ==> q in s1.entries && s1.entries[q] == s.entries[q]
  }

  /** Building a page keeps every entry: it rewrites a file in place or
      adds a new one. */
  lemma ContentKeepsEntries(s: FsState, config: Config, site: Site, host: Host,
                            p: Path, srcInfo: Info, page: Path)
    ensures var r := BuildContent(s, config, site, host, p, srcInfo, page);
            forall q :: q in s.entries ==> q in r.state.entries && r.state.entries[q] == s.entries[q]
  {
    PageStepKeepsEntries(s, config, site, host, p, page);
    var b := BuildPageStep(s, config, site, host, p, page);
    ContentCases(s, config, site, host, p, srcInfo, page);
    assert BuildContent(s, config, site, host, p, srcInfo, page).state in {s, b.state};
  }

  lemma PageStepKeepsEntries(s: FsState, config: Config, site: Site, host: Host, srcPath: Path, page: Path)
    ensures var r := BuildPageStep(s, config, site, host, srcPath, page);
            forall q :: q in s.entries ==> q in r.state.entries && r.state.entries[q] == s.entries[q]
  {
    if s.ReadFile(site.tplPath).Ok? {
      var env := CommandEnv(host.environ, srcPath, page, config.builder.bin, site.name, site.env);
      var built := Expand(s.ReadFile(site.tplPath).value, config.runCmd, env, host.run);
      if built.Some? {
        WrittenKeepsEntries(s, page, built.value);
      }
    }
  }

  lemma WrittenKeepsEntries(s: FsState, p: Path, text: string)
    ensures forall q :: q in s.entries ==> q in Written(s, p, text).entries && Written(s, p, text).entries[q] == s.entries[q]
  {
  }

  /** Linking a resource changes no entry but its copy. */
  lemma ResourceTouchesCopy(s: FsState, p: Path, srcInfo: Info, dst: Path)
    ensures var r := BuildResource(s, p, srcInfo, dst);
            forall q :: q in s.entries && q != dst ==> q in r.state.entries && r.state.entries[q] == s.entries[q]
  {
  }

  /** A step of the source walk on an entry of the source tree removes or
      replaces no existing entry outside the destination tree: what it
      links, writes or removes is a destination. */
  lemma BuildEntryStaysInside(s: FsState, config: Config, site: Site, host: Host, p: Path)
    requires Below(site.srcRoot, p)
    ensures KeepsOutside(s, BuildEntry(s, config, site, host, p).state, site.dstRoot)
  {
    if p in s.entries && s.entries[p].File? && s.Stat(p).Ok? {
      var srcInfo := s.Stat(p).value;
      var dst := DstOfFile(p, site.srcRoot, site.dstRoot, config.builder.ext);
      if PathExt(Rebase(p, site.srcRoot, site.dstRoot)) == config.builder.ext {
        ContentKeepsEntries(s, config, site, host, p, srcInfo, dst);
      } else {
        DstUnderRoot(p, site.srcRoot, site.dstRoot, config.builder.ext);
        ResourceTouchesCopy(s, p, srcInfo, dst);
      }
    }
  }

  /** The destination of a file of the source tree lies in the
      destination tree. */
  lemma DstUnderRoot(p: Path, srcRoot: Path, dstRoot: Path, builderExt: string)
    requires Below(srcRoot, p)
    ensures IsPrefix(dstRoot, DstOfFile(p, srcRoot, dstRoot, builderExt))
    ensures |DstOfFile(p, srcRoot, dstRoot, builderExt)| > |dstRoot|
  {
    var eq := Rebase(p, srcRoot, dstRoot);
    var _ := RebaseRenamed(p, srcRoot, dstRoot, LastName(p));
    var _ := RebaseRenamed(p, srcRoot, dstRoot, TrimSuffix(LastName(eq), PathExt(eq)) + HtmlExt);
  }

  /** The source walk over entries of the source tree removes or replaces
      no existing entry outside the destination tree. */
  lemma {:induction false} BuildWalkStaysInside(s: FsState, config: Config, site: Site, host: Host,
                                                order: seq<Path>)
    requires forall i :: 0 <= i < |order| ==> Below(site.srcRoot, order[i])
    ensures KeepsOutside(s, BuildWalk(s, config, site, host, order).state, site.dstRoot)
    decreases |order|
  {
    if order != [] {
      var r0 := BuildEntry(s, config, site, host, order[0]);
      BuildEntryStaysInside(s, config, site, host, order[0]);
      if r0.outcome == Done {
        BuildWalkStaysInside(r0.state, config, site, host, order[1..]);
      }
    }
  }

  /** Every entry of `s1` that `s` lacks lies under `root`. */
  ghost predicate AddsOnlyUnder(s: FsState, s1: FsState, root: Path) {
    forall q :: q in s1.entries && q !in s.entries ==> IsPrefix(root, q)
  }

  lemma WrittenAddsOnly(s: FsState, p: Path, text: string)
    ensures forall q :: q in Written(s, p, text).entries && q !in s.entries ==> q == p
  {
  }

  lemma PageStepAddsOnly(s: FsState, config: Config, site: Site, host: Host, srcPath: Path, page: Path)
    ensures var r := BuildPageStep(s, config, site, host, srcPath, page);
            forall q :: q in r.state.entries && q !in s.entries ==> q == page
  {
    if s.ReadFile(site.tplPath).Ok? {
      var env := CommandEnv(host.environ, srcPath, page, config.builder.bin, site.name, site.env);
      var built := Expand(s.ReadFile(site.tplPath).value, config.runCmd, env, host.run);
      if built.Some? {
        WrittenAddsOnly(s, page, built.value);
      }
    }
  }

  lemma ResourceAddsOnly(s: FsState, p: Path, srcInfo: Info, dst: Path)
    ensures var r := BuildResource(s, p, srcInfo, dst);
            forall q :: q in r.state.entries && q !in s.entries ==> q == dst
  {
  }

  /** When the destination root exists, a step of the source walk adds
      entries only under it (the paths `os.MkdirAll` makes, a page, a
      link), and the root stays. */
  lemma BuildEntryAddsInside(s: FsState, config: Config, site: Site, host: Host, p: Path)
    requires Below(site.srcRoot, p) && site.dstRoot in s.entries
    ensures var s1 := BuildEntry(s, config, site, host, p).state;
            AddsOnlyUnder(s, s1, site.dstRoot) && site.dstRoot in s1.entries
  {
    var eq := Rebase(p, site.srcRoot, site.dstRoot);
    if p in s.entries && s.entries[p].Dir? {
      assert eq[..|site.dstRoot|] == site.dstRoot;
      if site.dstRoot != [] {
        s.MkdirAllAddsBelow(eq, |site.dstRoot|);
      }
    } else if p in s.entries && s.Stat(p).Ok? {
      var srcInfo := s.Stat(p).value;
      var dst := DstOfFile(p, site.srcRoot, site.dstRoot, config.builder.ext);
      DstUnderRoot(p, site.srcRoot, site.dstRoot, config.builder.ext);
      if PathExt(eq) == config.builder.ext {
        assert BuildEntry(s, config, site, host, p) == BuildContent(s, config, site, host, p, srcInfo, dst);
        ContentAddsInside(s, config, site, host, p, srcInfo, dst, site.dstRoot);
      } else {
        assert BuildEntry(s, config, site, host, p) == BuildResource(s, p, srcInfo, dst);
        ResourceAddsInside(s, p, srcInfo, dst, site.dstRoot);
      }
    }
  }

  lemma ContentAddsInside(s: FsState, config: Config, site: Site, host: Host,
                          p: Path, srcInfo: Info, page: Path, root: Path)
    requires IsPrefix(root, page) && |page| > |root| && root in s.entries
    ensures var s1 := BuildContent(s, config, site, host, p, srcInfo, page).state;
            AddsOnlyUnder(s, s1, root) && root in s1.entries
  {
    ContentKeepsEntries(s, config, site, host, p, srcInfo, page);
    PageStepAddsOnly(s, config, site, host, p, page);
    ContentCases(s, config, site, host, p, srcInfo, page);
  }

  lemma ResourceAddsInside(s: FsState, p: Path, srcInfo: Info, dst: Path, root: Path)
    requires IsPrefix(root, dst) && |dst| > |root| && root in s.entries
    ensures var s1 := BuildResource(s, p, srcInfo, dst).state;
            AddsOnlyUnder(s, s1, root) && root in s1.entries
  {
    ResourceTouchesCopy(s, p, srcInfo, dst);
    ResourceAddsOnly(s, p, srcInfo, dst);
  }

  /** The source walk, started with the destination root present, adds
      entries only under it. */
  lemma {:induction false} BuildWalkAddsInside(s: FsState, config: Config, site: Site, host: Host,
                                               order: seq<Path>)
    requires forall i :: 0 <= i < |order| ==> Below(site.srcRoot, order[i])
    requires site.dstRoot in s.entries
    ensures var s1 := BuildWalk(s, config, site, host, order).state;
            AddsOnlyUnder(s, s1, site.dstRoot) && site.dstRoot in s1.entries
    decreases |order|
  {
    if order != [] {
      var r0 := BuildEntry(s, config, site, host, order[0]);
      BuildEntryAddsInside(s, config, site, host, order[0]);
      if r0.outcome == Done {
        BuildWalkAddsInside(r0.state, config, site, host, order[1..]);
      }
    }
  }

  /** The clean walk over entries of the destination tree removes or
      replaces no existing entry outside it. */
  lemma CleanWalkStaysInside(s: FsState, config: Config, site: Site, host: Host, order: seq<Path>)
    requires forall i :: 0 <= i < |order| ==> IsPrefix(site.dstRoot, order[i])
    ensures KeepsOutside(s, CleanWalk(s, config, site, host, order).state, site.dstRoot)
  {
    var r := CleanWalk(s, config, site, host, order);
    CleanOnlyRemoves(s, config, site, host, order);
    forall q | q in s.entries && !IsPrefix(site.dstRoot, q)
      ensures q in r.state.entries
    {
      if q !in r.state.entries {
        var v :| v in order && IsPrefix(v, q);
        UnderRoot(site.dstRoot, v, q);
      }
    }
  }

  /** `Config.build` removes or replaces no existing entry outside the
      destination tree. */
  lemma BuildSiteStaysInside(s: FsState, config: Config, site: Site, host: Host,
                             dstOrder: seq<Path>, srcOrder: seq<Path>)
    requires forall i :: 0 <= i < |dstOrder| ==> IsPrefix(site.dstRoot, dstOrder[i])
    requires forall i :: 0 <= i < |srcOrder| ==> Below(site.srcRoot, srcOrder[i])
    ensures KeepsOutside(s, BuildSite(s, config, site, host, dstOrder, srcOrder).state, site.dstRoot)
  {
    var c := CleanTree(s, config, site, host, dstOrder);
    CleanWalkStaysInside(s, config, site, host, dstOrder);
    assert KeepsOutside(s, c.state, site.dstRoot);
    BuildWalkStaysInside(c.state, config, site, host, srcOrder);
    var b := BuildTree(c.state, config, site, host, srcOrder);
    assert KeepsOutside(c.state, b.state, site.dstRoot);
    KeepsOutsideTrans(s, c.state, b.state, site.dstRoot);
  }

  lemma KeepsOutsideTrans(s0: FsState, s1: FsState, s2: FsState, root: Path)
    requires KeepsOutside(s0, s1, root) && KeepsOutside(s1, s2, root)
    ensures KeepsOutside(s0, s2, root)
  {
  }

  /** When the two trees are disjoint, whatever keeps everything outside
      the destination tree keeps every entry of the source tree. */
  lemma SourcesKept(s: FsState, s1: FsState, srcRoot: Path, dstRoot: Path)
    requires !IsPrefix(dstRoot, srcRoot) && !IsPrefix(srcRoot, dstRoot)
    requires KeepsOutside(s, s1, dstRoot)
    ensures forall q :: q in s.entries && IsPrefix(srcRoot, q) ==> q in s1.entries && s1.entries[q] == s.entries[q]
  {
    forall q | q in s.entries && IsPrefix(srcRoot, q)
      ensures q in s1.entries && s1.entries[q] == s.entries[q]
    {
      if IsPrefix(dstRoot, q) {
        PrefixesNest(srcRoot, dstRoot, q);
      }
    }
  }
}
