# swb: the site synchroniser, modelled in Dafny

swb builds static web sites. Each configured site has two trees:

- a source tree, holding content files, resources and directories;
- a destination tree, holding what the web server serves.

`Config.build` runs in two phases:

1. It runs `Config.clean`, which walks the destination tree. Any entry whose source counterpart is gone or has changed kind is deleted; so is a resource copy that is no longer a hard link to its source.
2. It walks the source tree:
   - each directory is mirrored;
   - each content file (one whose extension is the builder's, e.g. `.md`) is built into an `.html` page by expanding the site template;
   - each other file (a resource) is hard-linked into the destination tree.

A page or a link is made when it is missing and made again when its source is newer. Template expansion replaces every `%{ … }%` block with the standard output of an external command.

The model has seven modules:

- **Paths** (`paths.dfy`): paths as sequences of components. It gives `filepath.Ext` and the `TrimPrefix`/`TrimSuffix` expressions. It maps a source path to its destination (`DstOfFile`) and a destination path back to its source (`SrcOfFile`).
- **Template** and **TemplateProps** (`template.dfy`, `template_props.dfy`):
  - the regular expression `(?ms)^\s*%{(.*?)(?ms)^}%`, written out as a leftmost, non-overlapping scanner;
  - the `ReplaceAllStringFunc` substitution;
  - the callback's re-match;
  - the command line and environment built for each block.

  Running a command is an oracle `run(argv, env)`.
- **Fs** (`fs.dfy`): the filesystem.
  - Entries map paths to directory or file nodes. Each node carries an inode.
  - Times and contents belong to inodes, so a hard link shares its source's time.
  - A clock stamps every write.
  - `os.Stat`, `os.MkdirAll`, `os.Link`, `os.Remove`, `os.RemoveAll`, `os.WriteFile` and `os.ReadFile` are functions on the state, with Linux's error numbers.
  - The class `FileSystem` holds the same state in fields and changes it in place.
- **Sync** (`sync.dfy`): the two walks and `buildPage`.
  - Each callback and each walk is a function of the state. It returns the new state, how the step ended (`Done`, `Failed` or `Panicked`) and the lines it printed, as events.
  - The methods `VisitSource`, `VisitDestination`, `WalkSource`, `Clean`, `Build` and `BuildPage` carry the walks out on a `FileSystem`. Each is proved equal to its function. The walk loops keep the invariant that the whole walk equals the events so far followed by the rest of the walk.
- **SyncProps** (`sync_props.dfy`): the per-entry decisions of both walks, the shape of a clean walk, and the proof that a build removes or replaces no existing entry outside the destination tree and, when that root exists, adds entries only under it. Texts and times outside it are not covered: a write can reach a source file through a hard link (see Findings).
- **Idempotence** (`idempotence.dfy`): a second pass of the source walk, after one that finishes, changes nothing and prints nothing. It also proves the exception: a resource named `x.html` is deleted and linked again on every run.
- **Findings** (`findings.dfy`): for each defect listed under Findings, a lemma about the code as written and a corrected definition with its intended property.

Behaviours of the code that the model keeps:

- `build` drops the error returned by `clean` (main.go:70). Only a panic inside `clean` stops the build.
- Some filesystem errors are skipped rather than returned:
  - a lookup of the destination that fails with anything but "does not exist" leaves the entry alone (main.go:104, main.go:118);
  - the error of `os.WriteFile` is dropped (main.go:175).
- In `clean`, a lookup of the source counterpart that fails with anything but "does not exist" leaves `srcInfo` nil:
  - for a directory, `srcInfo.IsDir()` is then a nil dereference (main.go:197);
  - for a file not named `*.html`, `srcStat.Ino` dereferences a nil `*syscall.Stat_t` (main.go:227);
  - a file named `*.html` is kept.
- With an empty `RunCmd`, the first block panics on the slice `cmdArgs[-1:]` (main.go:154).

## Model

| member | source | states |
|---|---|---|
| Paths.TrimPrefix | main.go:85 | when `root` is a prefix, `root` followed by the result is `p`; otherwise `p` is returned unchanged |
| Paths.TrimSuffix | main.go:101 | when `suf` is a suffix, the result followed by `suf` is `s`; otherwise `s` is returned unchanged |
| Paths.Ext | main.go:99 | `filepath.Ext`: a suffix of the name that is empty exactly when the name holds no dot, and otherwise starts at the last dot |
| Paths.Rebase | main.go:85 | a path under `from` moves under `to`, keeping its path relative to the root |
| Paths.DirRoundTrip | main.go:195 | a directory's destination lies in the destination tree, and the clean walk maps it back to the same source directory |
| Paths.ContentRoundTrip | main.go:98-102 | a content file's page sits at the same depth, is named by its stem plus `.html`, and the clean walk's inverse mapping (main.go:205-210) gives back the content file |
| Paths.ResourceRoundTrip | main.go:205-210 | a resource whose extension is neither the builder's nor `.html` keeps its relative path and maps back to itself |
| Paths.HtmlResourceMismapped | main.go:207-210 | a resource named `x.html` maps back to `x` plus the builder's extension, which is not the resource |
| Template.SkipSpace | main.go:145 | `\s*` is greedy: it stops at the first non-space, and every character it skips is a space |
| Template.FindClose | main.go:145 | the lazy body ends at the first `}%` at a line start, and no earlier one exists |
| Template.MatchAt | main.go:145 | the result is the pattern's match at position i when there is one, and there is no other |
| Template.FindMatch | main.go:145 | the leftmost match at or after `from`; no match starts before it; `None` only when there is no match at all |
| TemplateProps.MatchUnique | main.go:145 | two matches at the same start are the same match |
| TemplateProps.MatchesAreLeftmostScan | main.go:146 | the scanner's block list is a leftmost, non-overlapping scan of the template |
| TemplateProps.LeftmostScanIsMatches | main.go:146 | any leftmost, non-overlapping scan equals the scanner's block list |
| TemplateProps.LeftmostScanOrdered | main.go:146 | the blocks of a leftmost scan are in order, do not overlap and lie within the text |
| TemplateProps.MatchesAreMatches | main.go:146 | every listed block is a match of the pattern |
| TemplateProps.ReplaceIsSplice | main.go:146-174 | `ReplaceAllStringFunc` copies the text between blocks and puts the callback's value in place of each block; replacements are not rescanned |
| TemplateProps.SpliceIdentity | main.go:146 | splicing each block's own text back in gives the original text |
| TemplateProps.ReplaceIdentity | main.go:146 | the substitution with the identity callback returns the template unchanged |
| TemplateProps.NoMatchUnchanged | main.go:145-146 | a template with no match has no blocks and is returned unchanged |
| TemplateProps.RematchRecoversBody | main.go:147-151 | running the pattern on one match's text captures that match's body, so the `len(submatches) < 2` branch is never taken |
| TemplateProps.CallbackRunsBody | main.go:146-151 | the callback replaces a match with its command's result on the body |
| TemplateProps.ExpandReplacesEachBlock | main.go:145-174 | with a non-empty `RunCmd`, expansion replaces each block in leftmost order with the command's stdout, or the error text when the command fails |
| TemplateProps.ArgvShape | main.go:152-154 | argv is `[RunCmd[0], RunCmd[n-1], body]`, which equals `RunCmd ++ [body]` iff n = 2 |
| TemplateProps.GetenvAppend | main.go:166 | in an appended environment, a later binding of a name overrides an earlier one |
| TemplateProps.CommandEnvLookup | main.go:155-166 | a site binding wins; otherwise each of the five names gets its value (the source's stem, the builder, the site name, both paths); otherwise the inherited environment |
| Fs.FsState.MissingErr | main.go:94-97 | a failed lookup reports ENOTDIR exactly when the nearest existing ancestor of the path is a file, and ENOENT otherwise |
| Fs.FsState.Stat | main.go:94 | `os.Stat` succeeds exactly for existing paths, giving their kind, inode and modification time; otherwise it fails with `MissingErr`'s error |
| Fs.FsState.MkdirAll | main.go:86 | on success `p` is a directory, every earlier entry and time is kept, and every added entry is a prefix of `p` |
| Fs.FsState.MkdirAllOutcome | main.go:86 | `os.MkdirAll` succeeds exactly when the longest existing prefix of `p` is a directory, and fails with ENOTDIR otherwise |
| Fs.FsState.MkdirAllAddsBelow | main.go:86 | every entry `os.MkdirAll` adds lies strictly below any existing prefix of `p` |
| Fs.FsState.MkdirAllCreates | main.go:86 | on success every prefix of `p` longer than the longest existing one is now a directory |
| Fs.FsState.Link | main.go:119 | succeeds exactly when the old name is a file, the new name's parent is a directory and the new name is free; it adds the new name for the same inode |
| Fs.FsState.Remove | main.go:125 | succeeds exactly for a file or an empty directory and removes just that entry; otherwise ENOTEMPTY for an existing path |
| Fs.FsState.RemoveAll | main.go:198 | removes exactly the entries at or below `p`; nothing else changes |
| Fs.FsState.WriteFile | main.go:175 | succeeds for a file, or for a free path in a directory (EISDIR or the parent's error otherwise); the inode of `p` then holds `text` and the clock's time; an existing file keeps every entry, a new file adds just `p`; every other inode keeps its text and time |
| Fs.FsState.ReadFile | main.go:140 | succeeds exactly for a file and returns the text of its inode; fails with EISDIR for a directory and `MissingErr`'s error for a missing path |
| Fs.FsState.WriteThenRead | main.go:175 | after a write, the written path and every other name of its inode read the text written; a file with another inode reads as before |
| Fs.FileSystem.MkdirAll | main.go:86 | in place: the new state is `MkdirAll`'s, or nothing changes and the error is returned |
| Fs.FileSystem.Link | main.go:119 | in place: the new state is `Link`'s, or nothing changes and the error is returned |
| Fs.FileSystem.Remove | main.go:125 | in place: the new state is `Remove`'s, or nothing changes and the error is returned |
| Fs.FileSystem.RemoveAll | main.go:198 | in place: the new state is `RemoveAll`'s |
| Fs.FileSystem.WriteFile | main.go:175 | in place: the new state is `WriteFile`'s, or nothing changes and the error is returned |
| Sync.BuildPage | main.go:139-177 | in place: reads the template, expands it and writes the page, ending as `BuildPageStep` says |
| Sync.VisitSource | main.go:71-136 | in place: the state, outcome and printed events of the source walk's callback, as `BuildEntry` says |
| Sync.VisitDestination | main.go:180-233 | in place: the state, outcome and printed events of the clean callback, as `CleanEntry` says |
| Sync.WalkSource | main.go:71-136 | the loop over the walk order ends in the state, outcome and events of `BuildTree`, stopping at the first step that does not finish |
| Sync.Clean | main.go:179-234 | the loop over the destination walk order ends as `CleanTree` says |
| Sync.Build | main.go:69-137 | clean, then the source walk; a clean error is dropped, a clean panic ends the build |
| SyncProps.PageBuilt | main.go:139-177 | an unreadable template fails the step; a block with an empty `RunCmd` panics; otherwise the step finishes, and the page reads as the expanded template with the clock's time when the write succeeds, while a failed write (a directory at the page, a missing parent) changes nothing |
| SyncProps.ContentDecision | main.go:100-115 | a missing page is built with `+`; a page older than its source is rebuilt with `^`; a failed build ends the walk and prints nothing; in every other case the state is unchanged |
| SyncProps.ContentCases | main.go:103-115 | the page lookup's three outcomes: missing, stale, or leave alone |
| SyncProps.ResourceDecision | main.go:116-133 | a missing copy becomes a hard link with `+`; a stale one is removed and linked again with `^`; a failed link ends the walk with its error, after a stale copy's removal when it comes after one; a failed remove ends it with nothing changed; otherwise nothing changes; times and texts are never touched |
| SyncProps.DirectoryMirrored | main.go:82-88 | a source directory's step finishes iff `MkdirAll` of its destination does; the destination is then a directory and every entry is kept |
| SyncProps.CleanDirectoryDecision | main.go:191-200 | a destination directory is pruned with `-/*` iff its source is missing or is a file; it is kept if the source is a directory; other lookup errors panic |
| SyncProps.CleanFileDecision | main.go:201-231 | a destination file is removed with `-` iff its source is missing, or it is not `.html` and has another inode. A `.html` file with a source is never removed. A missing `Stat_t` is an error. Other lookup errors panic, except for `.html` |
| SyncProps.CleanEntryShape | main.go:180-233 | a clean step either does nothing, removes one entry and goes on, or prunes a tree and ends the walk |
| SyncProps.CleanPrunesAtMostOnce | main.go:180-200 | a pruned tree is the clean walk's last event, and the walk then ends with the failed read |
| SyncProps.CleanOnlyRemoves | main.go:179-234 | the clean walk only deletes entries at or below visited paths; kept entries, times and texts are unchanged |
| SyncProps.BuildEntryStaysInside | main.go:82-133 | a source walk step removes or replaces no existing entry outside the destination tree |
| SyncProps.BuildEntryAddsInside | main.go:82-133 | when the destination root exists, a source walk step adds entries only under it (the paths `os.MkdirAll` makes, a page, a link) and the root stays |
| SyncProps.BuildWalkStaysInside | main.go:71-136 | the source walk removes or replaces no existing entry outside the destination tree |
| SyncProps.BuildWalkAddsInside | main.go:71-136 | when the destination root exists, the source walk adds entries only under it and the root stays |
| SyncProps.CleanWalkStaysInside | main.go:179-234 | the clean walk removes or replaces no entry outside the destination tree |
| SyncProps.BuildSiteStaysInside | main.go:69-137 | `Config.build` removes or replaces no entry outside the destination tree |
| SyncProps.SourcesKept | main.go:69-137 | with disjoint trees, keeping everything outside the destination tree keeps every source entry |
| Idempotence.DstOfRoundTrip | main.go:205-210 | the clean walk's mapping undoes the source walk's for every entry not named `*.html` |
| Idempotence.DistinctDst | main.go:85-102 | two different listed entries get different destinations |
| Idempotence.DirSettles | main.go:82-88 | a finished directory step leaves a directory at the destination and changes no time |
| Idempotence.ContentSettles | main.go:100-115 | a finished content step leaves a page no older than its source; only that page's inode gets a new time |
| Idempotence.ResourceSettles | main.go:116-133 | a finished resource step leaves a copy no older than its source and changes no time |
| Idempotence.StepKeepsInv | main.go:71-136 | each finished step keeps the sources unchanged and the earlier entries settled, settles its own entry, and leaves later destinations untouched |
| Idempotence.WalkKeepsInv | main.go:71-136 | a finished first pass leaves every listed entry settled |
| Idempotence.SettledIsQuiet | main.go:103-132 | visiting a settled entry changes nothing and prints nothing |
| Idempotence.QuietWalk | main.go:71-136 | a walk of quiet steps changes nothing and prints nothing |
| Idempotence.BuildWalkIdempotent | main.go:103-132 | after a source walk that finishes, a second pass over the same entries changes nothing and prints nothing |
| Idempotence.HtmlResourceChurns | main.go:205-229 | a linked resource named `x.html` whose content-file namesake does not exist: clean removes its copy with `-`, and the source walk links it again with `+` |
| Findings.SharedDestination | main.go:98-102 | a resource `x.html` and the content file `x` plus the builder's extension have the same destination |
| Findings.PageWriteOverwritesLinkedFile | main.go:109-115 | rebuilding a page that is a hard link to a file `q` finishes with `^` and leaves `q` holding the page's text and the clock's time |
| Findings.ResourceThenContentOverwrites | main.go:71-136 | a walk visiting a resource `x.html` and then its newer namesake content file prints `+` and `^` for the same page and leaves the source resource holding the page |
| Findings.WriteFreshKeepsOthers | main.go:175 | the corrected page write puts the text at the page whenever the code's write succeeds, and every other name keeps its text and time |
| Findings.ArgvDropsMiddleWord | main.go:152-154 | for `RunCmd` `[sh, -e, -c]` the command line is `[sh, -c, body]`, not the intended one |
| Findings.IntendedArgv | main.go:152-154 | the corrected command line: every word of `RunCmd` in order, then the body |
| Findings.IntendedArgvAgrees | main.go:152-154 | the code's command line equals the corrected one exactly when `RunCmd` has two words |
| Findings.PruneEndsWalk | main.go:180-200 | a clean walk whose first entry is a directory without a source counterpart prunes it and ends, keeping every later entry outside it |
| Findings.SkipCleanRemovesOrphans | main.go:179-234 | the corrected clean walk, when it finishes, has removed every visited destination entry whose source counterpart does not exist |
| Findings.LinkedHtmlResourceSettles | main.go:205-229 | with the corrected clean step, the copy of a resource `x.html` is kept and the source walk then leaves it alone |

## Findings

The walks in `Sync` model the code as written. Each corrected member stands beside them, in `findings.dfy`, with the intended property proved about it.

| source | as written | input that shows it | evidently intended | confidence | as-written member | corrected member |
|---|---|---|---|---|---|---|
| main.go:175 | a page that is a hard link to a source file is rewritten in place, so the build overwrites that source file | a resource `a.html` and a content file `a.md` (builder extension `.md`) in one source directory, `a.md` newer, `a.html` visited first: `a.html` is linked as the page of `a.md`, then the page is rebuilt through the link | a page is written as its own file, and a build never changes a file of the source tree | not executed | Findings.ResourceThenContentOverwrites | Findings.WriteFreshKeepsOthers |
| main.go:152-154 | the command line is `[RunCmd[0], RunCmd[n-1], body]`, which drops the middle words of a `RunCmd` longer than two | `RunCmd` `["sh", "-e", "-c"]` runs `sh -c body` | the command is `RunCmd` followed by the body | not executed | Findings.ArgvDropsMiddleWord | Findings.IntendedArgvAgrees |
| main.go:180-200 | after pruning a directory, `filepath.WalkDir` fails to read it, the callback returns that error (main.go:181-183) and the clean walk ends | two destination directories `d1` and `d2` whose sources are gone, `d1` visited first: `d2` stays | the walk goes on past the pruned directory and removes every orphan | not executed | Findings.PruneEndsWalk | Findings.SkipCleanRemovesOrphans |
| main.go:205-229 | the copy of a resource `x.html` is looked up as the content file `x` plus the builder's extension and removed, then linked again, on every build | a resource `x.html`, builder extension `.md`, no `x.md`: every build prints `- x.html` and `+ x.html` | a copy that is a hard link to its source is kept | not executed | Idempotence.HtmlResourceChurns | Findings.LinkedHtmlResourceSettles |

## Left out

- `main`, the flags, `os.Chdir` and `readConfig` with its JSON decoding (main.go:38-67) are plumbing. The model takes a `Config` and a `Site` as values and builds one site. Two things of `main` are not modelled: the loop over sites, and the dereference of a config that failed to load.
- The printing at main.go:108, 114, 122, 131, 153, 199 and 229 is kept only as the ghost event log. The print of the argument vector (main.go:153) is not kept.
- Running commands, capturing their output and `os.Environ()` are oracles: `Host.run` and `Host.environ`. `Getenv` reads the last binding of a name. That matches the removal of duplicate names that `os/exec` performs, which is library behaviour taken as given.
- `Host.statT` says whether `FileInfo.Sys()` is a `*syscall.Stat_t`. It is one flag for the whole run.
- Filesystem details are not modelled:
  - `filepath.Join` cleaning and separators: roots are canonical component sequences, and `Builder.Ext` is taken to hold no separator;
  - symbolic links: `ent.Info` and `os.Stat` agree;
  - permission bits 0755/0644, and I/O failures other than the error numbers listed in `Fs.Errno`.
- Directory times do not change when their children change, and the state does not require every entry's parent to exist. `os.RemoveAll` never fails.
- Wall-clock time is an integer clock that every write advances.
- The walk order is a parameter. Neither walk lists the directory it has just changed. Entries that the source walk creates under the tree it walks are not visited, and the listing is taken to match the tree.
- Idempotence.BuildWalkIdempotent: proved for the source walk, not for a whole `Config.build` with its clean walk. The clean walk is left out because a whole second build is quiet only if the first build's clean walk left nothing to prune or remove, and it does not: it removes the copy of every resource named `*.html` on every run (Findings), and ends at its first pruned directory. Stating when it settles would need an invariant about the whole destination tree that the model does not have. The lemma assumes (`Idempotence.WellPlaced`):
  - a valid starting state (`FsState.Valid`): every recorded time is before the clock, so no source file is dated in the future. With a future-dated source, main.go:109 rebuilds its page on every run until the clock passes that time;
  - disjoint trees and an existing destination root;
  - a parent-first listing without repeats;
  - no entry named `*.html` unless that is the builder's extension;
  - no directory where a file's copy belongs;
  - no page that is a hard link to a listed source.
- The error of `os.WriteFile` is dropped by the code (main.go:175), and the model drops it too (`Sync.Written`). A write can fail only on a directory or on a missing parent.
- SyncProps.BuildWalkAddsInside: assumes the destination root exists. When it does not, the directory step's `os.MkdirAll` (main.go:86) also creates the root's missing ancestors, which lie outside the destination tree. No `AddsInside` lemma is stated for the clean walk plus build (`SyncProps.BuildSiteStaysInside`), because it would also need the clean walk to keep the root.
- SyncProps.BuildSiteStaysInside: like the other `StaysInside` lemmas it speaks of existing entries only. The text and time of a source file can change through a hard link into the destination tree (Findings).
