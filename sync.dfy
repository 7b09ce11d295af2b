/** The site synchroniser: `Config.build` (main.go:69-137), which first runs
    `Config.clean` (main.go:179-234) and then walks the source tree, and
    `Config.buildPage` (main.go:139-177). Each walk is specified by a
    function of the filesystem state (one step per visited entry, the walk
    stopping at the first step that does not finish normally) and carried
    out by a method that changes a `FileSystem` in place. */
module Sync {
  import opened Wrappers
  import opened Paths
  import opened Template
  import opened Fs

  /** `Builder`: the extension of content files and the builder binary. */
  datatype Builder = Builder(ext: string, bin: string)

  /** One `Site` of the configuration. */
  datatype Site = Site(name: string, srcRoot: Path, dstRoot: Path, tplPath: Path, env: seq<string>)

  /** The parts of `Config` the walks read. */
  datatype Config = Config(builder: Builder, runCmd: seq<string>)

  /** What the program takes from its host: the inherited environment, the
      command runner, and whether `FileInfo.Sys()` is a `*syscall.Stat_t`. */
  datatype Host = Host(environ: seq<string>, run: (seq<string>, seq<string>) -> Exec, statT: bool)

  /** An error a walk returns: a failed system call, or the missing `Stat_t`. */
  datatype Error = Sys(errno: Errno) | NoStatT

  /** How a walk, or one of its steps, ends. `Panicked` is a nil dereference
      or an out-of-range slice: the process dies. */
  datatype Outcome = Done | Failed(error: Error) | Panicked

  /** The lines printed by the walks: ` + p` (added), ` ^ p` (updated),
      ` - p` (removed) and, for a pruned directory, ` - p` with a slash and a star. */
  datatype Event = Added(path: Path) | Updated(path: Path) | Removed(path: Path) | RemovedTree(path: Path)

  /** The state after a step or a walk, how it ended, and what it printed. */
  datatype Step = Step(state: FsState, outcome: Outcome, events: seq<Event>)

  function Unchanged(s: FsState): Step {
    Step(s, Done, [])
  }

  function Fail(s: FsState, e: Errno): Step {
    Step(s, Failed(Sys(e)), [])
  }

  /** Events printed before a walk that goes on. */
  function Prepend(events: seq<Event>, r: Step): Step {
    Step(r.state, r.outcome, events + r.events)
  }

  /** A step whose success is announced by `e`. */
  function Announce(r: Step, e: Event): Step {
    if r.outcome == Done then Step(r.state, Done, r.events + [e]) else r
  }

  /** The state after `os.WriteFile`, whose error is ignored (main.go:175). */
  function Written(s: FsState, p: Path, text: string): FsState {
    match s.WriteFile(p, text)
    case Ok(s1) => s1
    case Err(_) => s
  }

  /** The source counterpart's modification time is strictly after the
      destination's (main.go:109, main.go:123). */
  predicate Stale(srcInfo: Info, dstInfo: Info) {
    srcInfo.mtime > dstInfo.mtime
  }

  /** `buildPage` (main.go:139-177): read the template, expand it for this
      page, and write the result; only the read can fail. */
  function BuildPageStep(s: FsState, config: Config, site: Site, host: Host,
                         srcPath: Path, dstPath: Path): Step
  {
    match s.ReadFile(site.tplPath)
    case Err(e) => Fail(s, e)
    case Ok(tpl) =>
      var env := CommandEnv(host.environ, srcPath, dstPath, config.builder.bin, site.name, site.env);
      match Expand(tpl, config.runCmd, env, host.run)
      case None => Step(s, Panicked, [])
      case Some(page) => Unchanged(Written(s, dstPath, page))
  }

  /** The resource update (main.go:125-131): remove the stale copy, then
      link again; a failed link leaves the copy removed. */
  function Relink(s: FsState, p: Path, dst: Path): Step {
    match s.Remove(dst)
    case Err(e) => Fail(s, e)
    case Ok(s1) =>
      match s1.Link(p, dst)
      case Err(e) => Fail(s1, e)
      case Ok(s2) => Step(s2, Done, [Updated(dst)])
  }

  /** A content file (main.go:100-115): the page is built when it is
      missing and rebuilt when the source is newer. */
  function BuildContent(s: FsState, config: Config, site: Site, host: Host,
                        p: Path, srcInfo: Info, page: Path): Step
  {
    match s.Stat(page)
    case Err(ENOENT) => Announce(BuildPageStep(s, config, site, host, p, page), Added(page))
    case Err(_) => Unchanged(s)
    case Ok(dstInfo) =>
      if Stale(srcInfo, dstInfo) then Announce(BuildPageStep(s, config, site, host, p, page), Updated(page))
      else Unchanged(s)
  }

  /** A resource (main.go:116-133): hard-linked when missing, re-linked
      when the source is newer. */
  function BuildResource(s: FsState, p: Path, srcInfo: Info, dst: Path): Step {
    match s.Stat(dst)
    case Err(ENOENT) =>
      (match s.Link(p, dst)
       case Err(e) => Fail(s, e)
       case Ok(s1) => Step(s1, Done, [Added(dst)]))
    case Err(_) => Unchanged(s)
    case Ok(dstInfo) => if Stale(srcInfo, dstInfo) then Relink(s, p, dst) else Unchanged(s)
  }

  /** The callback of the source walk (main.go:71-136) for the entry `p`. */
  function BuildEntry(s: FsState, config: Config, site: Site, host: Host, p: Path): Step {
    if p == site.srcRoot then Unchanged(s)
    else if p !in s.entries then Fail(s, s.MissingErr(p))
    else if s.entries[p].Dir? then
      match s.MkdirAll(Rebase(p, site.srcRoot, site.dstRoot))
      case Err(e) => Fail(s, e)
      case Ok(s1) => Unchanged(s1)
    else
      match s.Stat(p)
      case Err(e) => Fail(s, e)
      case Ok(srcInfo) =>
        var dst := DstOfFile(p, site.srcRoot, site.dstRoot, config.builder.ext);
        if PathExt(Rebase(p, site.srcRoot, site.dstRoot)) == config.builder.ext then
          BuildContent(s, config, site, host, p, srcInfo, dst)
        else
          BuildResource(s, p, srcInfo, dst)
  }

  /** The source walk over the entries below the root, in walk order; it
      stops at the first step that does not finish normally. */
  function BuildWalk(s: FsState, config: Config, site: Site, host: Host, order: seq<Path>): Step
    decreases |order|
  {
    if order == [] then Unchanged(s)
    else
      var r := BuildEntry(s, config, site, host, order[0]);
      if r.outcome != Done then r
      else Prepend(r.events, BuildWalk(r.state, config, site, host, order[1..]))
  }

  /** `filepath.WalkDir(site.SrcRoot, …)`: a missing root is an error, a
      root that is a file visits nothing. */
  function BuildTree(s: FsState, config: Config, site: Site, host: Host, order: seq<Path>): Step {
    match s.Stat(site.srcRoot)
    case Err(e) => Fail(s, e)
    case Ok(info) => if info.isDir then BuildWalk(s, config, site, host, order) else Unchanged(s)
  }

  /** A pruned directory (main.go:197-200): the subtree goes, and the walk
      then fails to read the directory it just removed, which ends it. */
  function Prune(s: FsState, p: Path): Step {
    Step(s.RemoveAll(p), Failed(Sys(ENOENT)), [RemovedTree(p)])
  }

  /** The callback of the destination walk (main.go:180-233) for the entry `p`. */
  function CleanEntry(s: FsState, config: Config, site: Site, host: Host, p: Path): Step {
    if p == site.dstRoot then Unchanged(s)
    else if p !in s.entries then Fail(s, s.MissingErr(p))
    else if s.entries[p].Dir? then
      match s.Stat(Rebase(p, site.dstRoot, site.srcRoot))
      case Err(ENOENT) => Prune(s, p)
      case Err(_) => Step(s, Panicked, [])
      case Ok(srcInfo) => if srcInfo.isDir then Unchanged(s) else Prune(s, p)
    else
      var ext := PathExt(p);
      match s.Stat(SrcOfFile(p, site.srcRoot, site.dstRoot, config.builder.ext))
      case Err(ENOENT) => Step(s.RemoveAll(p), Done, [Removed(p)])
      case Err(_) => if ext != HtmlExt then Step(s, Panicked, []) else Unchanged(s)
      case Ok(srcInfo) =>
        if !host.statT then Step(s, Failed(NoStatT), [])
        else if ext != HtmlExt && srcInfo.ino != s.entries[p].ino then Step(s.RemoveAll(p), Done, [Removed(p)])
        else Unchanged(s)
  }

  /** The destination walk over the entries below the root, in walk order. */
  function CleanWalk(s: FsState, config: Config, site: Site, host: Host, order: seq<Path>): Step
    decreases |order|
  {
    if order == [] then Unchanged(s)
    else
      var r := CleanEntry(s, config, site, host, order[0]);
      if r.outcome != Done then r
      else Prepend(r.events, CleanWalk(r.state, config, site, host, order[1..]))
  }

  /** `filepath.WalkDir(site.DstRoot, …)`. */
  function CleanTree(s: FsState, config: Config, site: Site, host: Host, order: seq<Path>): Step {
    match s.Stat(site.dstRoot)
    case Err(e) => Fail(s, e)
    case Ok(info) => if info.isDir then CleanWalk(s, config, site, host, order) else Unchanged(s)
  }

  /** `Config.build` (main.go:69-137): clean, ignoring its error but not a
      panic, then walk the source tree. */
  function BuildSite(s: FsState, config: Config, site: Site, host: Host,
                     dstOrder: seq<Path>, srcOrder: seq<Path>): Step
  {
    var c := CleanTree(s, config, site, host, dstOrder);
    if c.outcome == Panicked then c
    else Prepend(c.events, BuildTree(c.state, config, site, host, srcOrder))
  }

  /** `buildPage`, on the filesystem in place. */
  method BuildPage(fs: FileSystem, config: Config, site: Site, host: Host, srcPath: Path, dstPath: Path)
    returns (o: Outcome)
    requires fs.Valid()
    modifies fs
    ensures fs.Valid()
    ensures var r := BuildPageStep(old(fs.State()), config, site, host, srcPath, dstPath);
            fs.State() == r.state && o == r.outcome && r.events == []
  {
    var tpl := fs.ReadFile(site.tplPath);
    if tpl.Err? {
      return Failed(Sys(tpl.errno));
    }
    var env := CommandEnv(host.environ, srcPath, dstPath, config.builder.bin, site.name, site.env);
    var built := Expand(tpl.value, config.runCmd, env, host.run);
    if built.None? {
      return Panicked;
    }
    var _ := fs.WriteFile(dstPath, built.value);
    o := Done;
  }

  /** The source walk's callback for `p`, on the filesystem in place. */
  method VisitSource(fs: FileSystem, config: Config, site: Site, host: Host, p: Path)
    returns (o: Outcome, ghost events: seq<Event>)
    requires fs.Valid()
    modifies fs
    ensures fs.Valid()
    ensures var r := BuildEntry(old(fs.State()), config, site, host, p);
            fs.State() == r.state && o == r.outcome && events == r.events
  {
    events := [];
    if p == site.srcRoot {
      return Done, events;
    }
    var info := fs.Stat(p);
    if info.Err? {
      return Failed(Sys(info.errno)), events;
    }
    if info.value.isDir {
      var err := fs.MkdirAll(Rebase(p, site.srcRoot, site.dstRoot));
      if err.Some? {
        return Failed(Sys(err.value)), events;
      }
      return Done, events;
    }
    var srcInfo := info.value;
    var dst := DstOfFile(p, site.srcRoot, site.dstRoot, config.builder.ext);
    var dstInfo := fs.Stat(dst);
    if PathExt(Rebase(p, site.srcRoot, site.dstRoot)) == config.builder.ext {
      if dstInfo == Err(ENOENT) {
        o := BuildPage(fs, config, site, host, p, dst);
        if o == Done {
          events := [Added(dst)];
        }
      } else if dstInfo.Ok? && Stale(srcInfo, dstInfo.value) {
        o := BuildPage(fs, config, site, host, p, dst);
        if o == Done {
          events := [Updated(dst)];
        }
      } else {
        o := Done;
      }
    } else {
      if dstInfo == Err(ENOENT) {
        var err := fs.Link(p, dst);
        if err.Some? {
          return Failed(Sys(err.value)), events;
        }
        events := [Added(dst)];
      } else if dstInfo.Ok? && Stale(srcInfo, dstInfo.value) {
        var err := fs.Remove(dst);
        if err.Some? {
          return Failed(Sys(err.value)), events;
        }
        err := fs.Link(p, dst);
        if err.Some? {
          return Failed(Sys(err.value)), events;
        }
        events := [Updated(dst)];
      }
      o := Done;
    }
  }

  /** The destination walk's callback for `p`, on the filesystem in place. */
  method VisitDestination(fs: FileSystem, config: Config, site: Site, host: Host, p: Path)
    returns (o: Outcome, ghost events: seq<Event>)
    requires fs.Valid()
    modifies fs
    ensures fs.Valid()
    ensures var r := CleanEntry(old(fs.State()), config, site, host, p);
            fs.State() == r.state && o == r.outcome && events == r.events
  {
    events := [];
    if p == site.dstRoot {
      return Done, events;
    }
    var dstInfo := fs.Stat(p);
    if dstInfo.Err? {
      return Failed(Sys(dstInfo.errno)), events;
    }
    if dstInfo.value.isDir {
      var srcInfo := fs.Stat(Rebase(p, site.dstRoot, site.srcRoot));
      if srcInfo == Err(ENOENT) || (srcInfo.Ok? && !srcInfo.value.isDir) {
        fs.RemoveAll(p);
        return Failed(Sys(ENOENT)), [RemovedTree(p)];
      }
      if srcInfo.Err? {
        return Panicked, events;
      }
      return Done, events;
    }
    var ext := PathExt(p);
    var srcInfo := fs.Stat(SrcOfFile(p, site.srcRoot, site.dstRoot, config.builder.ext));
    if srcInfo.Ok? && !host.statT {
      return Failed(NoStatT), events;
    }
    if srcInfo == Err(ENOENT) || (ext != HtmlExt && srcInfo.Ok? && srcInfo.value.ino != dstInfo.value.ino) {
      fs.RemoveAll(p);
      return Done, [Removed(p)];
    }
    if srcInfo.Err? && ext != HtmlExt {
      return Panicked, events;
    }
    o := Done;
  }

  /** `filepath.WalkDir(site.SrcRoot, …)` with the callback of `build`,
      visiting `order` (the entries below the root, in walk order). */
  method WalkSource(fs: FileSystem, config: Config, site: Site, host: Host, order: seq<Path>)
    returns (o: Outcome, ghost events: seq<Event>)
    requires fs.Valid()
    modifies fs
    ensures fs.Valid()
    ensures var r := BuildTree(old(fs.State()), config, site, host, order);
            fs.State() == r.state && o == r.outcome && events == r.events
  {
    events := [];
    var root := fs.Stat(site.srcRoot);
    if root.Err? {
      return Failed(Sys(root.errno)), events;
    }
    if !root.value.isDir {
      return Done, events;
    }
    ghost var s0 := fs.State();
    var i := 0;
    while i < |order|
      invariant 0 <= i <= |order| && fs.Valid()
      invariant BuildWalk(s0, config, site, host, order)
                == Prepend(events, BuildWalk(fs.State(), config, site, host, order[i..]))
    {
      assert order[i..][1..] == order[i + 1..];
      var r;
      ghost var ev;
      r, ev := VisitSource(fs, config, site, host, order[i]);
      if r != Done {
        return r, events + ev;
      }
      events := events + ev;
      i := i + 1;
    }
    o := Done;
  }

  /** `Config.clean` (main.go:179-234): `filepath.WalkDir(site.DstRoot, …)`
      visiting `order`, the entries below the root in walk order. */
  method Clean(fs: FileSystem, config: Config, site: Site, host: Host, order: seq<Path>)
    returns (o: Outcome, ghost events: seq<Event>)
    requires fs.Valid()
    modifies fs
    ensures fs.Valid()
    ensures var r := CleanTree(old(fs.State()), config, site, host, order);
            fs.State() == r.state && o == r.outcome && events == r.events
  {
    events := [];
    var root := fs.Stat(site.dstRoot);
    if root.Err? {
      return Failed(Sys(root.errno)), events;
    }
    if !root.value.isDir {
      return Done, events;
    }
    ghost var s0 := fs.State();
    var i := 0;
    while i < |order|
      invariant 0 <= i <= |order| && fs.Valid()
      invariant CleanWalk(s0, config, site, host, order)
                == Prepend(events, CleanWalk(fs.State(), config, site, host, order[i..]))
    {
      assert order[i..][1..] == order[i + 1..];
      var r;
      ghost var ev;
      r, ev := VisitDestination(fs, config, site, host, order[i]);
      if r != Done {
        return r, events + ev;
      }
      events := events + ev;
      i := i + 1;
    }
    o := Done;
  }

  /** `Config.build` (main.go:69-137), on the filesystem in place: the
      clean walk over `dstOrder`, then the source walk over `srcOrder`. */
  method Build(fs: FileSystem, config: Config, site: Site, host: Host,
               dstOrder: seq<Path>, srcOrder: seq<Path>)
    returns (o: Outcome, ghost events: seq<Event>)
    requires fs.Valid()
    modifies fs
    ensures fs.Valid()
    ensures var r := BuildSite(old(fs.State()), config, site, host, dstOrder, srcOrder);
            fs.State() == r.state && o == r.outcome && events == r.events
  {
    var c;
    ghost var cleaned;
    c, cleaned := Clean(fs, config, site, host, dstOrder);
    if c == Panicked {
      return c, cleaned;
    }
    ghost var built;
    o, built := WalkSource(fs, config, site, host, srcOrder);
    events := cleaned + built;
  }
}
