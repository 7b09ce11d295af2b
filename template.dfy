/** Template expansion (`Config.buildPage`, main.go:144-174): the pattern
    `(?ms)^\s*%{(.*?)(?ms)^}%` written out as a leftmost, non-overlapping
    scanner, the substitution `ReplaceAllStringFunc` performs with it, and
    the command line and environment built for each block. Running the
    command is an oracle `run(argv, env)`. */
module Template {
  import opened Wrappers
  import opened Paths

  /** `\s` of the pattern: space, tab, newline, form feed, carriage return. */
  predicate IsSpace(c: char) {
    c == ' ' || c == '\t' || c == '\n' || c == '\U{000C}' || c == '\r'
  }

  /** `^` under the `m` flag: the start of the text or just after a newline. */
  predicate LineStart(t: string, i: nat) {
    i == 0 || (i <= |t| && t[i - 1] == '\n')
  }

  /** The opening marker `%{` at position j. */
  predicate OpenAt(t: string, j: nat) {
    j + 2 <= |t| && t[j] == '%' && t[j + 1] == '{'
  }

  /** The closing marker `}%` at position k, which must be a line start. */
  predicate CloseAt(t: string, k: nat) {
    k + 2 <= |t| && LineStart(t, k) && t[k] == '}' && t[k + 1] == '%'
  }

  /** A match of the pattern: the text `t[start..End()]`; the captured body
      is `t[body..close]`. */
  datatype Block = Block(start: nat, body: nat, close: nat) {
    function End(): nat { close + 2 }
  }

  /** The match the pattern prefers at `b.start`: a line start, a run of
      `\s`, `%{`, and the shortest body that reaches a `}%` at a line start. */
  predicate IsMatch(t: string, b: Block) {
    && b.start + 2 <= b.body <= b.close
    && CloseAt(t, b.close)
    && LineStart(t, b.start)
    && (forall x :: b.start <= x < b.body - 2 ==> IsSpace(t[x]))
    && OpenAt(t, b.body - 2)
    && (forall k :: b.body <= k < b.close ==> !CloseAt(t, k))
  }

  function MatchText(t: string, b: Block): string
    requires b.start <= b.End() <= |t|
  {
    t[b.start..b.End()]
  }

  function BodyText(t: string, b: Block): string
    requires b.body <= b.close <= |t|
  {
    t[b.body..b.close]
  }

  /** Greedy `\s*`: the first position at or after i that is not `\s`. */
  function SkipSpace(t: string, i: nat): (j: nat)
    requires i <= |t|
    ensures i <= j <= |t| && (j == |t| || !IsSpace(t[j]))
    ensures forall x :: i <= x < j ==> IsSpace(t[x])
    decreases |t| - i
  {
    if i == |t| || !IsSpace(t[i]) then i else SkipSpace(t, i + 1)
  }

  /** Lazy `(.*?)` followed by `^}%`: the first closing marker from `from` on. */
  function FindClose(t: string, from: nat): (r: Option<nat>)
    ensures r.Some? ==> from <= r.value && CloseAt(t, r.value)
    ensures forall k :: from <= k && CloseAt(t, k) ==> r.Some? && r.value <= k
    decreases |t| - from
  {
    if from + 2 > |t| then None
    else if CloseAt(t, from) then Some(from)
    else FindClose(t, from + 1)
  }

  /** The match starting at position i, if the pattern matches there. */
  function MatchAt(t: string, i: nat): (r: Option<Block>)
    ensures r.Some? ==> r.value.start == i && IsMatch(t, r.value)
    ensures forall b: Block :: b.start == i && IsMatch(t, b) ==> r == Some(b)
  {
    if i > |t| || !LineStart(t, i) then None
    else
      var j := SkipSpace(t, i);
      if !OpenAt(t, j) then None
      else
        match FindClose(t, j + 2)
        case None => None
        case Some(k) => Some(Block(i, j + 2, k))
  }

  /** The leftmost match starting at or after `from`. */
  function FindMatch(t: string, from: nat): (r: Option<Block>)
    requires from <= |t|
    ensures r.Some? ==> from <= r.value.start && IsMatch(t, r.value)
    ensures r.Some? ==> forall b: Block :: from <= b.start < r.value.start ==> !IsMatch(t, b)
    ensures r.None? ==> forall b: Block :: from <= b.start ==> !IsMatch(t, b)
    decreases |t| - from
  {
    match MatchAt(t, from)
    case Some(b) => Some(b)
    case None => if from == |t| then None else FindMatch(t, from + 1)
  }

  /** The successive matches the substitution replaces, scanning from `from`:
      each search resumes where the previous match ended. */
  function MatchesFrom(t: string, from: nat): seq<Block>
    requires from <= |t|
    decreases |t| - from
  {
    match FindMatch(t, from)
    case None => []
    case Some(b) => [b] + MatchesFrom(t, b.End())
  }

  function Matches(t: string): seq<Block> {
    MatchesFrom(t, 0)
  }

  /** Blocks in order, non-overlapping and within t, from position `from` on. */
  ghost predicate Ordered(t: string, from: nat, bs: seq<Block>)
    decreases |bs|
  {
    && from <= |t|
    && (bs != [] ==>
          && from <= bs[0].start <= bs[0].body <= bs[0].close
          && bs[0].End() <= |t|
          && Ordered(t, bs[0].End(), bs[1..]))
  }

  /** The declarative reading of a leftmost, non-overlapping scan from
      `from`: the first block is a match and no match starts before it;
      the rest is such a scan from where the first block ends; and when no
      block is left, no match starts at all. */
  ghost predicate LeftmostScan(t: string, from: nat, bs: seq<Block>)
    decreases |bs|
  {
    && from <= |t|
    && (bs == [] ==> forall b: Block :: from <= b.start ==> !IsMatch(t, b))
    && (bs != [] ==>
          && IsMatch(t, bs[0])
          && from <= bs[0].start
          && (forall b: Block :: from <= b.start < bs[0].start ==> !IsMatch(t, b))
          && LeftmostScan(t, bs[0].End(), bs[1..]))
  }

  /** `ReplaceAllStringFunc`: copies the text between matches and hands each
      match's text to `g`; the replacements are not scanned again. */
  function ReplaceFrom(t: string, from: nat, g: string -> string): string
    requires from <= |t|
    decreases |t| - from
  {
    match FindMatch(t, from)
    case None => t[from..]
    case Some(b) => t[from..b.start] + g(MatchText(t, b)) + ReplaceFrom(t, b.End(), g)
  }

  function ReplaceAll(t: string, g: string -> string): string {
    ReplaceFrom(t, 0, g)
  }

  /** Reference definition of a substitution over a given block list. */
  function Splice(t: string, from: nat, bs: seq<Block>, g: string -> string): string
    requires Ordered(t, from, bs)
    decreases |bs|
  {
    if bs == [] then t[from..]
    else t[from..bs[0].start] + g(MatchText(t, bs[0])) + Splice(t, bs[0].End(), bs[1..], g)
  }

  /** The first capture group (main.go:147-151): the body captured when the
      pattern is run again on the text of one match. */
  function Submatch(m: string): Option<string> {
    match FindMatch(m, 0)
    case None => None
    case Some(b) => Some(BodyText(m, b))
  }

  /** The callback given to `ReplaceAllStringFunc` (main.go:146-174): run the
      block's body, or keep the match when it has no submatch. */
  function Callback(runBody: string -> string): string -> string {
    m => match Submatch(m) case None => m case Some(body) => runBody(body)
  }

  /** What a command run produces: its standard output, or the error. */
  datatype Exec = Exited(stdout: string) | ExecFailed(message: string)

  /** The text substituted for a block: standard output, or the error's
      text when the command fails (main.go:170-173). */
  function Output(e: Exec): string {
    match e
    case Exited(out) => out
    case ExecFailed(msg) => msg
  }

  /** The argument vector handed to the command runner (main.go:152-154): the
      run command with the body appended, keeping only its first element and
      everything from index len(runCmd)-1 on, which is the run command's first
      word, its last word and the body. */
  function Argv(runCmd: seq<string>, body: string): seq<string>
    requires |runCmd| >= 1
  {
    var cmdArgs := runCmd + [body];
    [cmdArgs[0]] + cmdArgs[|runCmd| - 1..]
  }

  /** The per-page bindings (main.go:155-166): the inherited environment,
      five fixed bindings, then the site's own bindings. */
  function CommandEnv(environ: seq<string>, srcPath: Path, dstPath: Path, builder: string,
                      siteName: string, siteEnv: seq<string>): seq<string>
  {
    environ
      + [ "page_name=" + Stem(LastName(srcPath)),
          "builder=" + builder,
          "site_name=" + siteName,
          "src_path=" + Render(srcPath),
          "dst_path=" + Render(dstPath) ]
      + siteEnv
  }

  /** The value a command sees for `name`, taking the last binding of it. */
  function Getenv(env: seq<string>, name: string): Option<string>
    decreases |env|
  {
    if env == [] then None
    else
      var kv := env[|env| - 1];
      if IsPrefix(name + "=", kv) then Some(kv[|name| + 1..]) else Getenv(env[..|env| - 1], name)
  }

  /** The expansion of one template: every block replaced by the output of
      its command. With an empty `RunCmd` the slice `cmdArgs[-1:]` panics as
      soon as there is a block to run, which is `None` here. */
  function Expand(t: string, runCmd: seq<string>, env: seq<string>,
                  run: (seq<string>, seq<string>) -> Exec): Option<string>
  {
    if |runCmd| == 0 then
      if Matches(t) == [] then Some(t) else None
    else
      Some(ReplaceAll(t, Callback(body => Output(run(Argv(runCmd, body), env)))))
  }
}
