/** The part of the operating system the synchroniser drives: a map from
    paths to nodes, modification times and contents kept per inode (so that
    hard links share them), and a clock that stamps every write. The system
    calls main.go makes (`os.Stat`, `os.MkdirAll`, `os.Link`, `os.Remove`,
    `os.RemoveAll`, `os.WriteFile`, `os.ReadFile`) are member functions of
    the state; the class `FileSystem` holds the state that the walks update
    in place. */
module Fs {
  import opened Wrappers
  import opened Paths

  type Ino = nat

  /** A directory entry and the inode it names. Directories have inodes too:
      `os.Stat` of a directory gives a modification time and an inode number. */
  datatype Node = Dir(ino: Ino) | File(ino: Ino)

  /** The error numbers the modelled calls can fail with. */
  datatype Errno = ENOENT | ENOTDIR | EEXIST | EISDIR | ENOTEMPTY | EPERM

  /** What `os.Stat` reports: `IsDir()`, `Sys().(*syscall.Stat_t).Ino`, `ModTime()`. */
  datatype Info = Info(isDir: bool, ino: Ino, mtime: int)

  datatype Result<T> = Ok(value: T) | Err(errno: Errno)

  /** The parent directory of a path. */
  function Parent(p: Path): Path
    requires p != []
  {
    p[..|p| - 1]
  }

  /** True when `q` lies strictly below `p`. */
  predicate Below(p: Path, q: Path) {
    |p| < |q| && q[..|p|] == p
  }

  datatype FsState = FsState(entries: map<Path, Node>, mtime: map<Ino, int>,
                             data: map<Ino, string>, clock: int, nextIno: Ino)
  {
    /** Every entry's inode has a time, every inode with a time is below
        the next fresh inode, and every recorded time lies before the clock. */
    ghost predicate Valid() {
      && (forall p :: p in entries ==> entries[p].ino < nextIno && entries[p].ino in mtime)
      && (forall i :: i in mtime ==> i < nextIno && mtime[i] < clock)
    }

    function MtimeOf(i: Ino): int {
      if i in mtime then mtime[i] else 0
    }

    /** `p[..k]` is the longest prefix of `p`, shorter than `p` itself and
        of at least one component, that exists. */
    predicate NearestAncestor(p: Path, k: int) {
      && 0 < k < |p| && p[..k] in entries
      && forall j :: k < j < |p| ==> p[..j] !in entries
    }

    /** The error a lookup of a missing path reports: ENOTDIR when the
        nearest existing ancestor is a file, ENOENT otherwise. Paths of one
        component live in the working directory, which always exists. */
    function MissingErr(p: Path): (r: Errno)
      ensures r == ENOENT || r == ENOTDIR
      ensures r == ENOTDIR <==> exists k :: NearestAncestor(p, k) && entries[p[..k]].File?
      decreases |p|
    {
      if |p| <= 1 then ENOENT
      else if Parent(p) in entries then
        assert NearestAncestor(p, |p| - 1);
        assert forall k :: NearestAncestor(p, k) ==> k == |p| - 1;
        if entries[Parent(p)].File? then ENOTDIR else ENOENT
      else
        assert forall k :: 0 < k < |p| - 1 ==> Parent(p)[..k] == p[..k];
        assert forall k :: NearestAncestor(p, k) <==> NearestAncestor(Parent(p), k);
        MissingErr(Parent(p))
    }

    /** The error of resolving the directory a new entry `p` goes into. */
    function ParentErr(p: Path): (r: Option<Errno>)
      ensures r.None? <==> |p| == 1 || (|p| > 1 && Parent(p) in entries && entries[Parent(p)].Dir?)
    {
      if p == [] then Some(ENOENT)
      else if |p| == 1 then None
      else if Parent(p) !in entries then Some(MissingErr(Parent(p)))
      else if entries[Parent(p)].File? then Some(ENOTDIR)
      else None
    }

    /** `os.Stat`: the entry's kind, inode and time, or the lookup error. */
    function Stat(p: Path): (r: Result<Info>)
      ensures r.Ok? <==> p in entries
      ensures r.Ok? ==> r.value.isDir == entries[p].Dir? && r.value.ino == entries[p].ino
      ensures r.Ok? ==> r.value.mtime == MtimeOf(entries[p].ino)
      ensures r.Err? ==> r.errno == MissingErr(p)
    {
      if p in entries then Ok(Info(entries[p].Dir?, entries[p].ino, MtimeOf(entries[p].ino)))
      else Err(MissingErr(p))
    }

    /** A new entry `p` for a fresh inode stamped with the clock. */
    function Create(p: Path, dir: bool, text: string): (s: FsState)
      ensures p in s.entries && s.entries[p].ino == nextIno && s.entries[p].Dir? == dir
      ensures forall q :: q != p ==> (q in s.entries <==> q in entries)
      ensures forall q :: q != p && q in entries ==> s.entries[q] == entries[q]
      ensures s.clock == clock + 1 && s.nextIno == nextIno + 1
      ensures Valid() ==> s.Valid()
    {
      var node := if dir then Dir(nextIno) else File(nextIno);
      FsState(entries[p := node], mtime[nextIno := clock], data[nextIno := text], clock + 1, nextIno + 1)
    }

    /** `os.Mkdir`: the parent must be a directory and `p` must be free. */
    function Mkdir(p: Path): (r: Result<FsState>)
      ensures r.Ok? <==> ParentErr(p).None? && p !in entries
      ensures r.Ok? ==> r.value == Create(p, true, "")
    {
      match ParentErr(p)
      case Some(e) => Err(e)
      case None => if p in entries then Err(EEXIST) else Ok(Create(p, true, ""))
    }

    /** `p[..k]` is the longest prefix of `p`, of at least one component,
        that exists (possibly `p` itself). */
    predicate NearestPrefix(p: Path, k: int) {
      && 0 < k <= |p| && p[..k] in entries
      && forall j :: k < j <= |p| ==> p[..j] !in entries
    }

    /** `os.MkdirAll`: nothing to do when `p` is a directory, ENOTDIR when it
        is a file, otherwise make the parent and then `p`. */
    function MkdirAll(p: Path): (r: Result<FsState>)
      ensures r.Ok? ==> p in r.value.entries && r.value.entries[p].Dir?
      ensures r.Ok? ==> forall q :: q in entries ==> q in r.value.entries && r.value.entries[q] == entries[q]
      ensures r.Ok? ==> forall q :: q in r.value.entries && q !in entries ==> IsPrefix(q, p)
      ensures r.Ok? ==> Valid() ==> r.value.Valid() && r.value.clock >= clock && r.value.nextIno >= nextIno
      ensures r.Ok? ==> r.value.data.Keys >= data.Keys && r.value.mtime.Keys >= mtime.Keys
      ensures r.Ok? ==> Valid() ==> forall i :: i in mtime ==> r.value.mtime[i] == mtime[i]
      decreases |p|
    {
      if p in entries then
        if entries[p].Dir? then Ok(this) else Err(ENOTDIR)
      else if |p| > 1 then
        match MkdirAll(Parent(p))
        case Err(e) => Err(e)
        case Ok(s) => s.Mkdir(p)
      else Mkdir(p)
    }

    /** When `os.MkdirAll` succeeds, and with which error it fails: it
        succeeds exactly when the longest existing prefix of `p` is a
        directory, and fails with ENOTDIR otherwise. */
    lemma {:induction false} MkdirAllOutcome(p: Path)
      ensures p != [] ==> (MkdirAll(p).Ok? <==> forall k :: NearestPrefix(p, k) ==> entries[p[..k]].Dir?)
      ensures p == [] ==> (MkdirAll(p).Ok? <==> [] in entries && entries[[]].Dir?)
      ensures MkdirAll(p).Err? && p != [] ==> MkdirAll(p).errno == ENOTDIR
      decreases |p|
    {
      assert p[..|p|] == p;
      if p in entries {
        assert p != [] ==> forall k :: NearestPrefix(p, k) <==> k == |p|;
      } else if |p| > 1 {
        assert forall k :: 0 < k <= |p| - 1 ==> Parent(p)[..k] == p[..k];
        assert forall k :: NearestPrefix(p, k) <==> NearestPrefix(Parent(p), k);
        MkdirAllOutcome(Parent(p));
      }
    }

    /** `os.MkdirAll` stops climbing at the first existing prefix: every
        entry it adds lies strictly below any existing prefix `p[..k]`. */
    lemma {:induction false} MkdirAllAddsBelow(p: Path, k: int)
      requires 0 < k <= |p| && p[..k] in entries
      ensures MkdirAll(p).Ok? ==> forall q :: q in MkdirAll(p).value.entries && q !in entries ==>
                                    IsPrefix(p[..k], q) && |q| > k
      decreases |p|
    {
      if p !in entries && |p| > 1 {
        assert k < |p| by { assert p[..|p|] == p; }
        assert Parent(p)[..k] == p[..k];
        MkdirAllAddsBelow(Parent(p), k);
        if MkdirAll(Parent(p)).Ok? {
          var s := MkdirAll(Parent(p)).value;
          forall q | q in MkdirAll(p).value.entries && q !in entries
            ensures IsPrefix(p[..k], q) && |q| > k
          {
            if q == p {
              assert q[..k] == p[..k];
            }
          }
        }
      }
    }

    /** On success `os.MkdirAll` has made a directory of every prefix of `p`
        above the longest existing one. */
    lemma {:induction false} MkdirAllCreates(p: Path)
      ensures MkdirAll(p).Ok? ==> forall k :: 0 < k <= |p| && (forall j :: k <= j <= |p| ==> p[..j] !in entries) ==>
                          p[..k] in MkdirAll(p).value.entries && MkdirAll(p).value.entries[p[..k]].Dir?
      decreases |p|
    {
      assert p[..|p|] == p;
      if p !in entries && |p| > 1 {
        assert forall k :: 0 < k <= |p| - 1 ==> Parent(p)[..k] == p[..k];
        MkdirAllCreates(Parent(p));
      }
    }

    /** `os.Link(oldName, newName)`: a second name for the inode of the file `oldName`. */
    function Link(oldName: Path, newName: Path): (r: Result<FsState>)
      ensures r.Ok? <==> oldName in entries && entries[oldName].File? && ParentErr(newName).None? && newName !in entries
      ensures r.Ok? ==> r.value == this.(entries := entries[newName := File(entries[oldName].ino)])
      ensures r.Ok? ==> Valid() ==> r.value.Valid()
    {
      if oldName !in entries then Err(MissingErr(oldName))
      else match ParentErr(newName)
        case Some(e) => Err(e)
        case None =>
          if newName in entries then Err(EEXIST)
          else if entries[oldName].Dir? then Err(EPERM)
          else Ok(this.(entries := entries[newName := File(entries[oldName].ino)]))
    }

    /** True when some entry lies below `p`. */
    predicate HasChild(p: Path) {
      exists q :: q in entries && Below(p, q)
    }

    /** `os.Remove`: unlinks a file or removes an empty directory. */
    function Remove(p: Path): (r: Result<FsState>)
      ensures r.Ok? <==> p in entries && (entries[p].Dir? ==> !HasChild(p))
      ensures r.Ok? ==> r.value == this.(entries := entries - {p})
      ensures r.Err? && p in entries ==> r.errno == ENOTEMPTY
      ensures r.Ok? ==> Valid() ==> r.value.Valid()
    {
      if p !in entries then Err(MissingErr(p))
      else if entries[p].Dir? && HasChild(p) then Err(ENOTEMPTY)
      else Ok(this.(entries := entries - {p}))
    }

    /** `os.RemoveAll`: `p` and everything below it are gone. It cannot fail here. */
    function RemoveAll(p: Path): (s: FsState)
      ensures forall q :: q in s.entries <==> q in entries && !IsPrefix(p, q)
      ensures forall q :: q in s.entries ==> s.entries[q] == entries[q]
      ensures s.mtime == mtime && s.data == data && s.clock == clock && s.nextIno == nextIno
      ensures Valid() ==> s.Valid()
    {
      this.(entries := map q | q in entries && !IsPrefix(p, q) :: entries[q])
    }

    /** `os.WriteFile`: truncates and rewrites an existing file in place
        (every hard link to it sees the new text and time), or creates a
        new file in a directory. */
    function WriteFile(p: Path, text: string): (r: Result<FsState>)
      ensures r.Ok? <==> (p in entries && entries[p].File?) || (p !in entries && ParentErr(p).None?)
      ensures r.Err? && p in entries ==> r.errno == EISDIR
      ensures r.Err? && p !in entries ==> ParentErr(p) == Some(r.errno)
      ensures r.Ok? ==> p in r.value.entries && r.value.entries[p].File?
      ensures r.Ok? ==> r.value.entries[p].ino in r.value.data && r.value.data[r.value.entries[p].ino] == text
      ensures r.Ok? ==> r.value.MtimeOf(r.value.entries[p].ino) == clock && r.value.clock == clock + 1
      ensures r.Ok? && p in entries ==> r.value.entries == entries
      ensures r.Ok? && p !in entries ==> r.value.entries == entries[p := File(nextIno)]
      ensures r.Ok? ==> forall i :: i in mtime && i != r.value.entries[p].ino ==>
                          i in r.value.mtime && r.value.mtime[i] == mtime[i]
      ensures r.Ok? ==> forall i :: i in data && i != r.value.entries[p].ino ==>
                          i in r.value.data && r.value.data[i] == data[i]
      ensures r.Ok? ==> Valid() ==> r.value.Valid()
    {
      if p in entries then
        match entries[p]
        case Dir(_) => Err(EISDIR)
        case File(i) => Ok(this.(mtime := mtime[i := clock], data := data[i := text], clock := clock + 1))
      else match ParentErr(p)
        case Some(e) => Err(e)
        case None => Ok(Create(p, false, text))
    }

    /** `os.ReadFile`: the text of a file (empty when it was never written). */
    function ReadFile(p: Path): (r: Result<string>)
      ensures r.Ok? <==> p in entries && entries[p].File?
      ensures r.Ok? && entries[p].ino in data ==> r.value == data[entries[p].ino]
      ensures r.Err? ==> r.errno == (if p in entries then EISDIR else MissingErr(p))
    {
      if p !in entries then Err(MissingErr(p))
      else match entries[p]
        case Dir(_) => Err(EISDIR)
        case File(i) => Ok(if i in data then data[i] else "")
    }

    /** Reading after a write gives the text written, through every name
        of the written inode; a file with another inode reads as before. */
    lemma WriteThenRead(p: Path, text: string, q: Path)
      requires WriteFile(p, text).Ok?
      ensures var s1 := WriteFile(p, text).value;
              && s1.ReadFile(p) == Ok(text)
              && (q in entries && entries[q].File? && q != p ==>
                    if entries[q].ino == s1.entries[p].ino then s1.ReadFile(q) == Ok(text)
                    else s1.ReadFile(q) == ReadFile(q))
    {
      var s1 := WriteFile(p, text).value;
      if q in entries && q != p {
        assert s1.entries[q] == entries[q];
      }
    }
  }

  /** The filesystem the walks change in place. */
  class FileSystem {
    var entries: map<Path, Node>
    var mtime: map<Ino, int>
    var data: map<Ino, string>
    var clock: int
    var nextIno: Ino

    function State(): FsState
      reads this
    {
      FsState(entries, mtime, data, clock, nextIno)
    }

    ghost predicate Valid()
      reads this
    {
      State().Valid()
    }

    constructor (s: FsState)
      requires s.Valid()
      ensures Valid() && State() == s
    {
      entries, mtime, data, clock, nextIno := s.entries, s.mtime, s.data, s.clock, s.nextIno;
    }

    /** Makes `s` the current state. */
    method Load(s: FsState)
      modifies this
      ensures State() == s
    {
      entries, mtime, data, clock, nextIno := s.entries, s.mtime, s.data, s.clock, s.nextIno;
    }

    method Stat(p: Path) returns (r: Result<Info>)
      ensures r == State().Stat(p)
    {
      r := State().Stat(p);
    }

    method ReadFile(p: Path) returns (r: Result<string>)
      ensures r == State().ReadFile(p)
    {
      r := State().ReadFile(p);
    }

    /** Applies a state change that may fail; on failure nothing changes. */
    method Apply(r: Result<FsState>) returns (err: Option<Errno>)
      modifies this
      ensures r.Ok? ==> err == None && State() == r.value
      ensures r.Err? ==> err == Some(r.errno) && State() == old(State())
    {
      match r
      case Ok(s) =>
        Load(s);
        err := None;
      case Err(e) =>
        err := Some(e);
    }

    method MkdirAll(p: Path) returns (err: Option<Errno>)
      requires Valid()
      modifies this
      ensures Valid()
      ensures var r := old(State()).MkdirAll(p);
              if r.Ok? then err == None && State() == r.value else err == Some(r.errno) && State() == old(State())
    {
      err := Apply(State().MkdirAll(p));
    }

    method Link(oldName: Path, newName: Path) returns (err: Option<Errno>)
      requires Valid()
      modifies this
      ensures Valid()
      ensures var r := old(State()).Link(oldName, newName);
              if r.Ok? then err == None && State() == r.value else err == Some(r.errno) && State() == old(State())
    {
      err := Apply(State().Link(oldName, newName));
    }

    method Remove(p: Path) returns (err: Option<Errno>)
      requires Valid()
      modifies this
      ensures Valid()
      ensures var r := old(State()).Remove(p);
              if r.Ok? then err == None && State() == r.value else err == Some(r.errno) && State() == old(State())
    {
      err := Apply(State().Remove(p));
    }

    method RemoveAll(p: Path)
      requires Valid()
      modifies this
      ensures Valid()
      ensures State() == old(State()).RemoveAll(p)
    {
      Load(State().RemoveAll(p));
    }

    method WriteFile(p: Path, text: string) returns (err: Option<Errno>)
      requires Valid()
      modifies this
      ensures Valid()
      ensures var r := old(State()).WriteFile(p, text);
              if r.Ok? then err == None && State() == r.value else err == Some(r.errno) && State() == old(State())
    {
      err := Apply(State().WriteFile(p, text));
    }
  }
}
