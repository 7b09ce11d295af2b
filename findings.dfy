/** Four places where the code does something its authors evidently did
    not intend. For each, a lemma about the model of the code as written
    exhibits the behaviour, and a corrected definition beside it carries
    the intended property. The walks of `Sync` keep modelling the code as
    written. */
module Findings {
  import opened Wrappers
  import opened Paths
  import opened Template
  import opened TemplateProps
  import opened Fs
  import opened Sync
  import opened SyncProps
  import opened Idempotence

  // A page written through a hard link (main.go:119, main.go:175).

  /** The content file whose page has the name of the resource `res`
      ("x.html"): "x" followed by the builder's extension. */
  function Namesake(res: Path, ext: string): Path {
    WithLast(res, TrimSuffix(LastName(res), HtmlExt) + ext)
  }

  /** A resource "x.html" and the content file "x" plus the builder's
      extension have the same destination: the resource's copy is the
      content file's page. */
  lemma SharedDestination(res: Path, srcRoot: Path, dstRoot: Path, ext: string)
    requires Below(srcRoot, res) && PathExt(res) == HtmlExt && ext != HtmlExt
    requires PathExt(Namesake(res, ext)) == ext
    ensures var md := Namesake(res, ext);
            && Below(srcRoot, md) && md != res
            && PathExt(Rebase(md, srcRoot, dstRoot)) == ext
            && PathExt(Rebase(res, srcRoot, dstRoot)) == HtmlExt
            && DstOfFile(res, srcRoot, dstRoot, ext) == Rebase(res, srcRoot, dstRoot)
            && DstOfFile(md, srcRoot, dstRoot, ext) == Rebase(res, srcRoot, dstRoot)
  {
    var name := LastName(res);
    var stem := TrimSuffix(name, HtmlExt);
    assert stem + HtmlExt == name;
    var md := Namesake(res, ext);
    var d := RebaseRenamed(res, srcRoot, dstRoot, name);
    var m := RebaseRenamed(res, srcRoot, dstRoot, stem + ext);
    assert md == srcRoot + m[|dstRoot|..];
    assert Rebase(md, srcRoot, dstRoot) == m;
    assert (stem + ext)[|stem|..] == ext;
    assert TrimSuffix(stem + ext, ext) == stem;
    assert (stem + HtmlExt)[|stem|..] == HtmlExt;
    assert LastName(md) != LastName(res);
    WithLastSame(Rebase(res, srcRoot, dstRoot));
    assert WithLast(m, stem + HtmlExt) == Rebase(res, srcRoot, dstRoot);
  }

  /** As written: rebuilding a page that is a hard link to another file
      `q` writes through the link (`os.WriteFile` truncates the inode in
      place), so `q` ends up holding the page's text and the clock's time. */
  lemma PageWriteOverwritesLinkedFile(s: FsState, config: Config, site: Site, host: Host, p: Path, q: Path)
    requires p != site.srcRoot && p in s.entries && s.entries[p].File?
    requires PathExt(Rebase(p, site.srcRoot, site.dstRoot)) == config.builder.ext
    requires var page := DstOfFile(p, site.srcRoot, site.dstRoot, config.builder.ext);
             && page in s.entries && q in s.entries && s.entries[q].File? && s.entries[page] == s.entries[q]
             && s.MtimeOf(s.entries[p].ino) > s.MtimeOf(s.entries[q].ino)
    requires s.ReadFile(site.tplPath).Ok? && |config.runCmd| > 0
    ensures var page := DstOfFile(p, site.srcRoot, site.dstRoot, config.builder.ext);
            var env := CommandEnv(host.environ, p, page, config.builder.bin, site.name, site.env);
            var text := Expand(s.ReadFile(site.tplPath).value, config.runCmd, env, host.run).value;
            var r := BuildEntry(s, config, site, host, p);
            && r.outcome == Done && r.events == [Updated(page)]
            && q in r.state.entries && r.state.ReadFile(q) == Ok(text)
            && r.state.MtimeOf(r.state.entries[q].ino) == s.clock
  {
    var page := DstOfFile(p, site.srcRoot, site.dstRoot, config.builder.ext);
    var env := CommandEnv(host.environ, p, page, config.builder.bin, site.name, site.env);
    var text := Expand(s.ReadFile(site.tplPath).value, config.runCmd, env, host.run).value;
    ContentDecision(s, config, site, host, p);
    PageBuilt(s, config, site, host, p, page);
    s.WriteThenRead(page, text, q);
  }

  /** As written, on two source files: a resource "x.html" visited before
      the newer content file "x" plus the builder's extension. The first
      step links the copy, the second finds that copy older than the
      content file and rebuilds it in place, which rewrites the resource
      in the source tree. */
  lemma ResourceThenContentOverwrites(s: FsState, config: Config, site: Site, host: Host, res: Path)
    requires s.Valid()
    requires !IsPrefix(site.srcRoot, site.dstRoot) && !IsPrefix(site.dstRoot, site.srcRoot)
    requires Below(site.srcRoot, res) && PathExt(res) == HtmlExt && config.builder.ext != HtmlExt
    requires PathExt(Namesake(res, config.builder.ext)) == config.builder.ext
    requires var md := Namesake(res, config.builder.ext);
             && res in s.entries && s.entries[res].File? && md in s.entries && s.entries[md].File?
             && s.MtimeOf(s.entries[md].ino) > s.MtimeOf(s.entries[res].ino)
    requires var d := Rebase(res, site.srcRoot, site.dstRoot);
             && d !in s.entries && |d| > 1 && Parent(d) in s.entries && s.entries[Parent(d)].Dir?
             && site.tplPath != d
    requires s.ReadFile(site.tplPath).Ok? && |config.runCmd| > 0
    ensures var md := Namesake(res, config.builder.ext);
            var d := Rebase(res, site.srcRoot, site.dstRoot);
            var env := CommandEnv(host.environ, md, d, config.builder.bin, site.name, site.env);
            var text := Expand(s.ReadFile(site.tplPath).value, config.runCmd, env, host.run).value;
            var r := BuildWalk(s, config, site, host, [res, md]);
            && r.outcome == Done && r.events == [Added(d), Updated(d)]
            && res in r.state.entries && r.state.ReadFile(res) == Ok(text)
            && r.state.MtimeOf(r.state.entries[res].ino) == s.clock
  {
    var md := Namesake(res, config.builder.ext);
    var d := Rebase(res, site.srcRoot, site.dstRoot);
    ScenarioSteps(s, config, site, host, res);
    WalkOfTwo(s, config, site, host, res, md);
    var r0 := BuildEntry(s, config, site, host, res);
    var r1 := BuildEntry(r0.state, config, site, host, md);
    assert r0.events == [Added(d)] && r1.events == [Updated(d)];
    ConcatTwo(Added(d), Updated(d), r0.events, r1.events);
  }

  lemma ConcatTwo<T>(a: T, b: T, x: seq<T>, y: seq<T>)
    requires x == [a] && y == [b]
    ensures x + y == [a, b]
  {
  }

  /** The two steps of `ResourceThenContentOverwrites`, one at a time. */
  lemma ScenarioSteps(s: FsState, config: Config, site: Site, host: Host, res: Path)
    requires s.Valid()
    requires !IsPrefix(site.srcRoot, site.dstRoot) && !IsPrefix(site.dstRoot, site.srcRoot)
    requires Below(site.srcRoot, res) && PathExt(res) == HtmlExt && config.builder.ext != HtmlExt
    requires PathExt(Namesake(res, config.builder.ext)) == config.builder.ext
    requires var md := Namesake(res, config.builder.ext);
             && res in s.entries && s.entries[res].File? && md in s.entries && s.entries[md].File?
             && s.MtimeOf(s.entries[md].ino) > s.MtimeOf(s.entries[res].ino)
    requires var d := Rebase(res, site.srcRoot, site.dstRoot);
             && d !in s.entries && |d| > 1 && Parent(d) in s.entries && s.entries[Parent(d)].Dir?
             && site.tplPath != d
    requires s.ReadFile(site.tplPath).Ok? && |config.runCmd| > 0
    ensures var md := Namesake(res, config.builder.ext);
            var d := Rebase(res, site.srcRoot, site.dstRoot);
            var env := CommandEnv(host.environ, md, d, config.builder.bin, site.name, site.env);
            var text := Expand(s.ReadFile(site.tplPath).value, config.runCmd, env, host.run).value;
            var r0 := BuildEntry(s, config, site, host, res);
            var r1 := BuildEntry(r0.state, config, site, host, md);
            && r0.outcome == Done && r0.events == [Added(d)]
            && r1.outcome == Done && r1.events == [Updated(d)]
            && res in r1.state.entries && r1.state.ReadFile(res) == Ok(text)
            && r1.state.MtimeOf(r1.state.entries[res].ino) == s.clock
  {
    var md := Namesake(res, config.builder.ext);
    var d := Rebase(res, site.srcRoot, site.dstRoot);
    SharedDestination(res, site.srcRoot, site.dstRoot, config.builder.ext);
    LinkedState(s, config, site, host, res, d);
    var r0 := BuildEntry(s, config, site, host, res);
    CopyNotAbove(md, site.srcRoot, site.dstRoot, d);
    AfterLink(s, r0.state, site, res, md, d);
    PageWriteOverwritesLinkedFile(r0.state, config, site, host, md, res);
  }

  /** Linking the copy `d` of `p` adds only that name and leaves times and
      texts as they were. */
  lemma LinkedState(s: FsState, config: Config, site: Site, host: Host, p: Path, d: Path)
    requires p != site.srcRoot && p in s.entries && s.entries[p].File?
    requires PathExt(Rebase(p, site.srcRoot, site.dstRoot)) != config.builder.ext
    requires d == DstOfFile(p, site.srcRoot, site.dstRoot, config.builder.ext)
    requires d !in s.entries && |d| > 1 && Parent(d) in s.entries && s.entries[Parent(d)].Dir?
    ensures var r := BuildEntry(s, config, site, host, p);
            && r.outcome == Done && r.events == [Added(d)]
            && r.state.entries == s.entries[d := s.entries[p]]
            && r.state.mtime == s.mtime && r.state.data == s.data && r.state.clock == s.clock
  {
    ResourceDecision(s, config, site, host, p);
    ResourceRelinked(s, config, site, host, p, d);
  }

  /** After the copy `d` of `res` is linked, the content file `md` is
      newer than its page, which is a second name of `res`. */
  lemma AfterLink(s: FsState, s1: FsState, site: Site, res: Path, md: Path, d: Path)
    requires res in s.entries && s.entries[res].File? && md in s.entries && s.entries[md].File?
    requires s.MtimeOf(s.entries[md].ino) > s.MtimeOf(s.entries[res].ino)
    requires md != d && res != d && d != site.tplPath && s.ReadFile(site.tplPath).Ok?
    requires s1.entries == s.entries[d := s.entries[res]] && s1.mtime == s.mtime && s1.data == s.data
    ensures md in s1.entries && s1.entries[md] == s.entries[md]
    ensures res in s1.entries && s1.entries[res] == s.entries[res]
    ensures d in s1.entries && s1.entries[d] == s1.entries[res]
    ensures s1.MtimeOf(s1.entries[md].ino) > s1.MtimeOf(s1.entries[res].ino)
    ensures s1.ReadFile(site.tplPath) == s.ReadFile(site.tplPath)
  {
  }

  /** A source walk over two entries whose steps both finish. */
  lemma WalkOfTwo(s: FsState, config: Config, site: Site, host: Host, a: Path, b: Path)
    requires BuildEntry(s, config, site, host, a).outcome == Done
    requires BuildEntry(BuildEntry(s, config, site, host, a).state, config, site, host, b).outcome == Done
    ensures var r0 := BuildEntry(s, config, site, host, a);
            var r1 := BuildEntry(r0.state, config, site, host, b);
            BuildWalk(s, config, site, host, [a, b]) == Step(r1.state, Done, r0.events + r1.events)
  {
    var r0 := BuildEntry(s, config, site, host, a);
    var r1 := BuildEntry(r0.state, config, site, host, b);
    assert [a, b][1..] == [b];
    assert [b][1..] == [];
    assert BuildWalk(r0.state, config, site, host, [b]) == Prepend(r1.events, Unchanged(r1.state));
  }

  /** Corrected: the page is written as a new file that replaces the
      file at `p`, so no other name of the old inode sees the write. A
      write onto a directory or into a missing directory is dropped, as
      in the code. */
  function WriteFresh(s: FsState, p: Path, text: string): (s1: FsState)
    ensures s.Valid() ==> s1.Valid()
  {
    if p in s.entries && s.entries[p].File? then s.Create(p, false, text) else Written(s, p, text)
  }

  /** The corrected write puts `text` at `p` whenever the code's write
      would succeed, and every other name reads the same text and time
      as before. */
  lemma WriteFreshKeepsOthers(s: FsState, p: Path, text: string, q: Path)
    requires s.Valid()
    ensures var s1 := WriteFresh(s, p, text);
            && (s.WriteFile(p, text).Ok? ==> s1.ReadFile(p) == Ok(text))
            && (q in s.entries && q != p ==>
                  && q in s1.entries && s1.entries[q] == s.entries[q]
                  && s1.ReadFile(q) == s.ReadFile(q)
                  && s1.MtimeOf(s1.entries[q].ino) == s.MtimeOf(s.entries[q].ino))
  {
    var s1 := WriteFresh(s, p, text);
    if q in s.entries && q != p {
      assert s.entries[q].ino < s.nextIno;
    }
  }

  // The command line of a block (main.go:152-154).

  /** As written: with a three-word `RunCmd` the middle word is lost. */
  lemma ArgvDropsMiddleWord()
    ensures Argv(["sh", "-e", "-c"], "date") == ["sh", "-c", "date"]
    ensures Argv(["sh", "-e", "-c"], "date") != IntendedArgv(["sh", "-e", "-c"], "date")
  {
    assert IntendedArgv(["sh", "-e", "-c"], "date")[1] == "-e";
  }

  /** Corrected: every word of `RunCmd`, in order, then the body. */
  function IntendedArgv(runCmd: seq<string>, body: string): (r: seq<string>)
    ensures |r| == |runCmd| + 1 && r[|runCmd|] == body
    ensures forall i :: 0 <= i < |runCmd| ==> r[i] == runCmd[i]
  {
    runCmd + [body]
  }

  /** The code's command line is the intended one exactly for a
      two-word `RunCmd`. */
  lemma IntendedArgvAgrees(runCmd: seq<string>, body: string)
    requires |runCmd| >= 1
    ensures Argv(runCmd, body) == IntendedArgv(runCmd, body) <==> |runCmd| == 2
  {
    ArgvShape(runCmd, body);
  }

  // The clean walk ends at its first pruned directory (main.go:180-200).

  /** As written: once the first visited entry is a directory whose
      source counterpart is missing, the walk prunes it and ends, so every
      later entry outside it is left, orphaned or not. */
  lemma PruneEndsWalk(s: FsState, config: Config, site: Site, host: Host, order: seq<Path>)
    requires order != [] && order[0] != site.dstRoot && order[0] in s.entries && s.entries[order[0]].Dir?
    requires s.Stat(Rebase(order[0], site.dstRoot, site.srcRoot)) == Err(ENOENT)
    ensures var r := CleanWalk(s, config, site, host, order);
            && r == Prune(s, order[0])
            && forall v :: v in order[1..] && v in s.entries && !IsPrefix(order[0], v) ==> v in r.state.entries
  {
  }

  /** Corrected clean step: a pruned directory lets the walk go on past
      its subtree (as returning `filepath.SkipDir` would), and an entry an
      earlier prune removed is not visited. Otherwise the step is as
      written. */
  function SkipCleanEntry(s: FsState, config: Config, site: Site, host: Host, p: Path): Step {
    if p != site.dstRoot && p !in s.entries then Unchanged(s)
    else
      var r := CleanEntry(s, config, site, host, p);
      if r.events == [RemovedTree(p)] then Step(r.state, Done, r.events) else r
  }

  /** The corrected clean walk. */
  function SkipCleanWalk(s: FsState, config: Config, site: Site, host: Host, order: seq<Path>): Step
    decreases |order|
  {
    if order == [] then Unchanged(s)
    else
      var r := SkipCleanEntry(s, config, site, host, order[0]);
      if r.outcome != Done then r
      else Prepend(r.events, SkipCleanWalk(r.state, config, site, host, order[1..]))
  }

  /** The source path a clean step looks up for the destination entry `v`. */
  function Counterpart(s: FsState, config: Config, site: Site, v: Path): Path {
    if v in s.entries && s.entries[v].Dir? then Rebase(v, site.dstRoot, site.srcRoot)
    else SrcOfFile(v, site.srcRoot, site.dstRoot, config.builder.ext)
  }

  /** A destination entry whose source counterpart does not exist. */
  predicate Orphan(s: FsState, config: Config, site: Site, v: Path) {
    v != site.dstRoot && v in s.entries && s.Stat(Counterpart(s, config, site, v)) == Err(ENOENT)
  }

  /** Corrected: a clean walk over destination entries that finishes
      removes every visited orphan, wherever it comes in the walk. */
  lemma {:induction false} SkipCleanRemovesOrphans(s: FsState, config: Config, site: Site, host: Host,
                                                   order: seq<Path>)
    requires !IsPrefix(site.srcRoot, site.dstRoot) && !IsPrefix(site.dstRoot, site.srcRoot)
    requires forall i :: 0 <= i < |order| ==> IsPrefix(site.dstRoot, order[i])
    ensures var r := SkipCleanWalk(s, config, site, host, order);
            r.outcome == Done ==> forall v :: v in order && Orphan(s, config, site, v) ==> v !in r.state.entries
    decreases |order|
  {
    if order != [] {
      var u := order[0];
      var r0 := SkipCleanEntry(s, config, site, host, u);
      SkipCleanEntryShape(s, config, site, host, u);
      if r0.outcome == Done {
        var rest := SkipCleanWalk(r0.state, config, site, host, order[1..]);
        assert forall i :: 0 <= i < |order[1..]| ==> order[1..][i] == order[i + 1];
        SkipCleanRemovesOrphans(r0.state, config, site, host, order[1..]);
        SkipCleanOnlyRemoves(r0.state, config, site, host, order[1..]);
        if rest.outcome == Done {
          if Orphan(s, config, site, u) {
            OrphanRemoved(s, config, site, host, u);
          }
          OrphansGone(s, r0.state, rest.state, config, site, u, order[1..]);
          assert order == [u] + order[1..];
        }
      }
    }
  }

  /** One step of the induction: orphans of the rest of the walk are gone
      at its end, the visited orphan went in the step, and nothing came
      back. */
  lemma OrphansGone(s: FsState, s1: FsState, last: FsState, config: Config, site: Site,
                    u: Path, tail: seq<Path>)
    requires !IsPrefix(site.srcRoot, site.dstRoot) && !IsPrefix(site.dstRoot, site.srcRoot)
    requires IsPrefix(site.dstRoot, u) && forall i :: 0 <= i < |tail| ==> IsPrefix(site.dstRoot, tail[i])
    requires s1 == s || s1 == s.RemoveAll(u)
    requires Orphan(s, config, site, u) ==> u !in s1.entries
    requires forall q :: q in last.entries ==> q in s1.entries
    requires forall v :: v in tail && Orphan(s1, config, site, v) ==> v !in last.entries
    ensures forall v :: v in [u] + tail && Orphan(s, config, site, v) ==> v !in last.entries
  {
    forall v | v in [u] + tail && Orphan(s, config, site, v)
      ensures v !in last.entries
    {
      if v != u && v in s1.entries {
        OrphanStaysOrphan(s, s1, config, site, u, v);
      }
    }
  }

  /** A corrected clean step leaves the state alone or removes the visited
      entry and what lies below it. */
  lemma SkipCleanEntryShape(s: FsState, config: Config, site: Site, host: Host, p: Path)
    ensures var r := SkipCleanEntry(s, config, site, host, p);
            r.state == s || r.state == s.RemoveAll(p)
  {
    CleanEntryShape(s, config, site, host, p);
  }

  /** The corrected clean walk only removes. */
  lemma {:induction false} SkipCleanOnlyRemoves(s: FsState, config: Config, site: Site, host: Host,
                                                order: seq<Path>)
    ensures forall q :: q in SkipCleanWalk(s, config, site, host, order).state.entries ==> q in s.entries
    decreases |order|
  {
    if order != [] {
      var r0 := SkipCleanEntry(s, config, site, host, order[0]);
      SkipCleanEntryShape(s, config, site, host, order[0]);
      if r0.outcome == Done {
        SkipCleanOnlyRemoves(r0.state, config, site, host, order[1..]);
      }
    }
  }

  /** An orphan visited by the corrected walk is removed. */
  lemma OrphanRemoved(s: FsState, config: Config, site: Site, host: Host, u: Path)
    requires Orphan(s, config, site, u)
    ensures var r := SkipCleanEntry(s, config, site, host, u);
            r.outcome == Done && u !in r.state.entries
  {
    assert IsPrefix(u, u);
    if s.entries[u].Dir? {
      CleanDirectoryDecision(s, config, site, host, u);
    } else {
      CleanFileDecision(s, config, site, host, u);
    }
  }

  /** Removing the destination entry `u` changes neither the kind of another
      destination entry `v` nor the lookup of its source counterpart. */
  lemma OrphanStaysOrphan(s: FsState, s1: FsState, config: Config, site: Site, u: Path, v: Path)
    requires !IsPrefix(site.srcRoot, site.dstRoot) && !IsPrefix(site.dstRoot, site.srcRoot)
    requires IsPrefix(site.dstRoot, u) && IsPrefix(site.dstRoot, v)
    requires s1 == s || s1 == s.RemoveAll(u)
    requires Orphan(s, config, site, v) && v in s1.entries
    ensures Orphan(s1, config, site, v)
  {
    var c := Counterpart(s, config, site, v);
    assert s1.entries[v] == s.entries[v];
    assert Counterpart(s1, config, site, v) == c;
    CounterpartInSource(s, config, site, v);
    if s1 != s {
      if IsPrefix(u, c) {
        UnderRoot(site.dstRoot, u, c);
        PrefixesNest(site.srcRoot, site.dstRoot, c);
      }
      RemoveAllKeepsStat(s, u, c);
    }
  }

  /** The source counterpart of an entry below the destination root lies
      in the source tree. */
  lemma CounterpartInSource(s: FsState, config: Config, site: Site, v: Path)
    requires IsPrefix(site.dstRoot, v) && v != site.dstRoot
    ensures IsPrefix(site.srcRoot, Counterpart(s, config, site, v))
  {
    var eq := Rebase(v, site.dstRoot, site.srcRoot);
    var _ := RebaseRenamed(v, site.dstRoot, site.srcRoot, TrimSuffix(LastName(eq), HtmlExt) + config.builder.ext);
  }

  /** Removing a tree that does not hold `c` leaves the lookup of `c` as it was. */
  lemma RemoveAllKeepsStat(s: FsState, u: Path, c: Path)
    requires !IsPrefix(u, c)
    ensures s.RemoveAll(u).Stat(c) == s.Stat(c)
  {
    RemoveAllKeepsMissingErr(s, u, c);
  }

  lemma {:induction false} RemoveAllKeepsMissingErr(s: FsState, u: Path, c: Path)
    requires !IsPrefix(u, c)
    ensures s.RemoveAll(u).MissingErr(c) == s.MissingErr(c)
    decreases |c|
  {
    if |c| > 1 {
      if IsPrefix(u, Parent(c)) {
        UnderRoot(u, Parent(c), c);
      }
      RemoveAllKeepsMissingErr(s, u, Parent(c));
    }
  }

  // A resource named "x.html" is removed and linked again on every run
  // (main.go:205-229).

  /** Corrected clean step: a destination file that is a hard link to the
      source file at the same relative path (the copy of a resource) is
      kept, whatever its extension. Otherwise the step is as written. */
  function KeepLinkedCleanEntry(s: FsState, config: Config, site: Site, host: Host, p: Path): Step {
    var src := Rebase(p, site.dstRoot, site.srcRoot);
    if p != site.dstRoot && p in s.entries && s.entries[p].File? && src in s.entries && s.entries[src] == s.entries[p]
    then Unchanged(s)
    else CleanEntry(s, config, site, host, p)
  }

  /** Corrected: the copy of a resource named "x.html" survives the
      corrected clean step, and the source walk then leaves it alone, so a
      run prints nothing for it. */
  lemma LinkedHtmlResourceSettles(s: FsState, config: Config, site: Site, host: Host, p: Path)
    requires !IsPrefix(site.srcRoot, site.dstRoot) && !IsPrefix(site.dstRoot, site.srcRoot)
    requires Below(site.srcRoot, p) && p in s.entries && s.entries[p].File?
    requires PathExt(p) == HtmlExt && config.builder.ext != HtmlExt
    requires var d := DstOfFile(p, site.srcRoot, site.dstRoot, config.builder.ext);
             d in s.entries && s.entries[d] == s.entries[p]
    ensures var d := DstOfFile(p, site.srcRoot, site.dstRoot, config.builder.ext);
            && KeepLinkedCleanEntry(s, config, site, host, d) == Unchanged(s)
            && BuildEntry(s, config, site, host, p) == Unchanged(s)
  {
    var d := DstOfFile(p, site.srcRoot, site.dstRoot, config.builder.ext);
    HtmlCopyPath(p, site.srcRoot, site.dstRoot, config.builder.ext);
    DirRoundTrip(p, site.srcRoot, site.dstRoot);
    ResourceDecision(s, config, site, host, p);
  }
}
