# Dotfile link reconciler — a Dafny model

The dotfiles tool keeps a user's configuration in a repository and makes the
live configuration point at it. Two kinds of mapping are declared, each a
`Location` with a path `from` inside the repository and a destination `to`.
A destination is one string or one string per platform (`OsOrString`), and
may hold the placeholders `$UNIX_CONFIG`, `$CONFIG` and `$HOME`.

- **Symlink mappings** go to `dot_link`, which makes the destination a
  symbolic link to the repository copy:
  - on a first run it moves a live configuration into the repository;
  - it leaves an existing correct link alone;
  - it removes anything else in the way.
- **Copy mappings** go to `copy`, which copies a file, or the regular files
  directly inside a directory, to the destination.

`main` visits the symlink mappings, then the copy mappings, in declaration
order. It skips a mapping whose destination resolves to the empty string.
A panic inside a turn ends the whole run.

The PHP predecessor of the tool, `dotconfig_setup.php`, does the linking
with two shell commands. Its `dotLink` skips any destination that is
already a link; otherwise it runs `rm -rf` and then `ln -s`. Its
`createPath` rewrites `/`-separated paths with the platform's separator.

## How the model is organised

- **`Wrappers`:** `Option`.
- **`Text`:**
  - Rust's `str::replace`, as `ReplaceAll`;
  - PHP's `explode` and `implode`, as `Explode` and `Implode`.

  Replacement is proved to be "split on the pattern, then join with the
  replacement".
- **`Paths`:**
  - `Path::join`, the parent directory, `file_name`, `basename` (the last
    component with trailing slashes ignored), and subtree membership;
  - `Rebase`, the new path of an entry after a move.
- **`FileSystemModel`:**
  - The filesystem is a map from path to node: a directory, a regular file
    with its bytes, or a symbolic link with its target.
  - The set `sealed` names the directories whose entries the process may not
    create, remove, rename or write. It stands for permission errors.
  - Every call that changes the filesystem is a pure `...Result` function
    returning `Option<Tree>`, where `None` means the call fails and changes
    nothing. The queries (`exists`, `is_file`, `is_dir`, `is_link`,
    `symlink_metadata`, `read_dir`) are predicates and functions on the tree.
  - The empty path and a path ending in `/` (other than the root) name no
    entry: nothing lies below the empty path, and no call creates either.
    `symlink`, `ln -s` and `fs::copy` refuse to create such a path, as Linux
    does.
  - The class `FileSystem` holds the live tree. Its methods apply those
    functions in place.
- **`Resolver`:** `format_location` and `format_path`. The platform, the
  home directory and the per-user configuration directory are inputs.
- **`Link`:** `dot_link`, as the imperative `DotLink` over a `FileSystem`,
  proved equal to the pure `LinkSpec`. The properties are proved about
  `LinkSpec`.
- **`Copy`:** `copy`, as `CopyPath`, `CopyEntriesInto` (the directory loop)
  and `ReadDir`, proved against `CopySpec` and `CopyEntries`.
- **`Passes`:** the shape shared by both loops of `main`:
  - each item's turn yields an outcome and a new state;
  - a panic outcome ends the loop;
  - properties about order, skipping and stopping.
- **`Driver`:** the two loops of `main` (`LinkAll`, `CopyAll`) and their
  sequence (`Reconcile`), proved against `Pass` over the per-mapping turns.
- **`PhpSetup`:** `createPath` and `dotLink` of the PHP script.

Behaviours of the code worth knowing, each stated by a lemma:

- **`format_path` rescans text it has already inserted.** Each placeholder
  is replaced by a separate global `str::replace`, so a later pass rescans
  text an earlier one inserted. A home directory whose name holds `$CONFIG`
  is rewritten by the `$CONFIG` pass (`Resolver.FormatPathRescansInsertedText`).
- **The directory copy returns at the first failing entry**
  (`dotconfig.rs:168`); later entries are not copied
  (`Copy.CopyStopsAtFirstFailure`).
- **A failed removal of the old destination panics** (`dotconfig.rs:133`
  and `dotconfig.rs:135`), which ends the whole run, not only that mapping
  (`Link.OverwriteReplacesDestination`, `Driver.Reconcile`).
- **The PHP script never looks at the exit status of `rm -rf`.** When a
  destination directory cannot be removed, `ln -s` still runs and creates
  the link inside that directory, under the source's last component
  (`PhpSetup.UnremovableDirectoryGetsLinkInside`).

## Model

| member | source | states |
|---|---|---|
| Text.ReplaceAll | dotconfig.rs:76-78 | (definition) `str::replace`: every non-overlapping occurrence, scanned from the left, is replaced; the inserted text is not scanned again in the same call |
| Text.Implode | dotconfig_setup.php:22 | (definition) `implode`: the parts in order, the separator between neighbours |
| Text.Explode | dotconfig_setup.php:20 | `explode` always yields at least one piece |
| Text.ReplaceAllIsImplodeExplode | dotconfig.rs:76-78 | replacing every occurrence of a non-empty pattern equals splitting the text on the pattern and joining the pieces with the replacement |
| Text.ReplaceAllWithoutMatch | dotconfig.rs:76-78 | a text without the pattern comes back unchanged |
| Text.ReplaceAllBySelf | dotconfig.rs:76-78 | replacing a pattern by itself is the identity |
| Text.ReplaceAllAtMatch | dotconfig.rs:76-78 | an occurrence at the front is replaced and the scan resumes after it, so the inserted text is not scanned again in that call |
| Text.ReplaceAllSkipsPrefix | dotconfig.rs:76-78 | a prefix holding no first character of the pattern is kept verbatim |
| Text.ImplodeExplode | dotconfig_setup.php:20-22 | joining with the delimiter undoes splitting on it |
| Text.ImplodeAppend | dotconfig_setup.php:22 | joining two non-empty lists is joining each, with one separator between |
| Text.ExplodeAround | dotconfig_setup.php:20 | splitting `a/b` on `/` gives the pieces of `a` followed by the pieces of `b` |
| Text.ImplodeSeparatorCount | dotconfig_setup.php:22 | joining `n >= 1` parts with a character adds exactly `n - 1` of it |
| Paths.Join | dotconfig.rs:98 | an absolute relative part replaces the base; an absolute base gives an absolute result; the result ends with the relative part |
| Paths.Name | dotconfig.rs:161 | the last component holds no `/` |
| Paths.StripSlashes | dotconfig_setup.php:10 | the result is a prefix of the path that does not end in `/`, only slashes were dropped, and it is empty only for the empty path |
| Paths.BaseName | dotconfig_setup.php:10 | the last component as `ln` takes it holds no `/`, and is `Name` for a path not ending in `/` |
| Paths.BaseNameIgnoresTrailingSlash | dotconfig_setup.php:10 | a trailing `/` on the link target does not change the name `ln -s` gives the link inside a directory |
| Paths.JoinNameEndsInName | dotconfig.rs:161 | `to.join(name)` with a non-empty name holding no `/` is a non-empty path that does not end in `/` |
| Paths.InSubtree | dotconfig.rs:133 | (definition) `q` is `p` itself or lies below the directory `p`; nothing lies below the empty path |
| Paths.Rebase | dotconfig.rs:104 | a moved entry lands inside the destination's subtree; the moved root lands on the destination |
| Paths.RebaseInjective | dotconfig.rs:104 | a move sends distinct entries to distinct paths |
| Paths.JoinSplits | dotconfig.rs:161 | `to.join(name)` has `to` as its parent and `name` as its last component, and differs from `to` |
| FileSystemModel.TargetPath | dotconfig.rs:99 | an absolute link target is followed as it is |
| FileSystemModel.Resolve | dotconfig.rs:99 | following links ends at an entry that exists and is not a link; an entry that is not a link resolves to itself |
| FileSystemModel.ResolveMoreHops | dotconfig.rs:99 | allowing more hops does not change where a successful lookup ends |
| FileSystemModel.LinkToMissingIsMissing | dotconfig.rs:99-102 | a link to a missing absolute path does not exist either |
| FileSystemModel.MovedContents | dotconfig.rs:104 | a move re-creates the source subtree under the destination, leaves everything outside both subtrees unchanged, and leaves only moved entries under the destination |
| FileSystemModel.Unnamed | dotconfig.rs:139 | (definition) the empty path, or a path other than the root ending in `/`: neither names an entry |
| FileSystemModel.AllNamed | dotconfig.rs:139 | (definition) no entry of the tree sits at an unnamed path |
| FileSystemModel.UnnamedNeverCreated | dotconfig_setup.php:9-10 | on a tree whose entries all have names, every removal, `symlink`, `ln -s` and `fs::copy` that succeeds leaves such a tree: none creates the empty path or a path ending in `/` |
| FileSystemModel.UnnamedNotRenamedTo | dotconfig.rs:104 | on a tree whose entries all have names, a `rename` that succeeds leaves such a tree |
| FileSystemModel.WriteTargetInPlace | dotconfig.rs:171 | `fs::copy` onto a named path in an existing directory, holding a regular file or nothing, writes that path itself |
| FileSystemModel.Children | dotconfig.rs:159 | (definition) `read_dir`: the entries whose parent is the directory |
| FileSystemModel.ParentIsDir | dotconfig.rs:139 | (definition) the path names an entry (it is not empty and does not end in `/`) and the directory that holds it is the root, the working directory, or an existing directory |
| FileSystemModel.WriteTarget | dotconfig.rs:171 | (definition) where `fs::copy` writes: following links from the destination, the regular file reached, or the missing path reached when it names an entry and its directory exists; nothing for a directory, a path ending in `/`, a missing directory or too many links |
| FileSystemModel.Exists | dotconfig.rs:99 | (definition) `Path::exists`: the lookup through links ends at an entry |
| FileSystemModel.IsFile | dotconfig.rs:160 | (definition) `Path::is_file`: the lookup through links ends at a regular file |
| FileSystemModel.RenameResult | dotconfig.rs:104 | (definition) `rename`: fails for a missing source, a missing or sealed directory, a move into its own subtree or onto an ancestor, and a type or non-empty-directory clash; otherwise the moved tree |
| FileSystemModel.RemoveFileResult | dotconfig.rs:135 | (definition) `remove_file`: removes a present non-directory in a writable directory, otherwise fails |
| FileSystemModel.RemoveDirAllResult | dotconfig.rs:133 | (definition) `remove_dir_all`: removes a directory's whole subtree when every entry may be removed, otherwise fails |
| FileSystemModel.SymlinkResult | dotconfig.rs:139 | (definition) `symlink`: adds the link when the name is free, non-empty and not ending in `/`, and its directory exists and is writable, otherwise fails |
| FileSystemModel.RmRfResult | dotconfig_setup.php:9 | (definition) GNU `rm -rf`: removes the whole subtree, nothing when the path is missing or empty, and fails for the root and when an entry may not be removed |
| FileSystemModel.LnSResult | dotconfig_setup.php:10 | (definition) `ln -s`: onto a directory, the link goes inside it under the target's last component, trailing slashes of the target ignored; otherwise at the path itself; it fails for the empty path and a path ending in `/`, which name nothing |
| FileSystemModel.Chase | dotconfig.rs:171 | following links from a path ends at a non-link entry or at a missing path, and a path that is not a link is its own end |
| FileSystemModel.ResolveIsChaseToEntry | dotconfig.rs:171 | the lookup used by `exists` and `is_file` ends exactly where following the links ends at an entry, and fails when they end at a missing path |
| FileSystemModel.CopyFileResult | dotconfig.rs:171 | (definition) `fs::copy`: the source must lead to a regular file; the destination, followed through links, must be a regular file or a missing path, not ending in `/`, in an existing directory, in a writable directory; its contents become the source's |
| FileSystemModel.CopyThroughDanglingLink | dotconfig.rs:171 | copying onto a link to a missing absolute path creates that path with the source's contents and leaves the link in place |
| FileSystemModel.FileSystem.Rename | dotconfig.rs:104 | `rename` reports success exactly when it is allowed; on success the tree is the moved one, and on failure the tree is unchanged |
| FileSystemModel.FileSystem.RemoveFile | dotconfig.rs:135 | `remove_file` removes a non-directory entry when it is allowed; otherwise it changes nothing |
| FileSystemModel.FileSystem.RemoveDirAll | dotconfig.rs:133 | `remove_dir_all` removes a directory's whole subtree when every entry may be removed; otherwise it changes nothing |
| FileSystemModel.FileSystem.CreateSymlink | dotconfig.rs:139 | `symlink` adds the link exactly when the name is free, names an entry (not empty, not ending in `/`) and its directory exists and is writable |
| FileSystemModel.FileSystem.CopyFile | dotconfig.rs:171 | `fs::copy` reports success exactly when `CopyFileResult` allows the copy; the tree is then the copied one, and unchanged on failure |
| FileSystemModel.FileSystem.RmRf | dotconfig_setup.php:9 | `rm -rf` removes the whole subtree and succeeds on a missing or empty path; it changes nothing for the root or when an entry may not be removed |
| FileSystemModel.FileSystem.LnS | dotconfig_setup.php:10 | `ln -s` onto a directory creates the link inside it under the target's last component, trailing slashes of the target ignored; otherwise it creates the link itself; on failure (the empty path and a path ending in `/` included) nothing changes |
| Resolver.SelectDestination | dotconfig.rs:62-68 | (definition) the string of a single destination, or the per-platform string for the host's platform |
| Resolver.FormatPath | dotconfig.rs:72-80 | (definition) `format_path`: replace all `$UNIX_CONFIG` by the home directory's `.config`, then all `$CONFIG` by the configuration directory, then all `$HOME` by the home directory |
| Resolver.FormatLocation | dotconfig.rs:61-70 | (definition) `format_location`: `FormatPath` of the selected destination |
| Resolver.PlatformSelection | dotconfig.rs:61-70 | a per-platform destination resolves from its macOS string on macOS and its Linux string on Linux; a single string is used on both |
| Resolver.EmptyDestinationResolvesEmpty | dotconfig.rs:61-80 | an empty destination for the host's platform resolves to the empty string, the mark that skips a mapping |
| Resolver.FormatPathWithoutPlaceholders | dotconfig.rs:72-80 | a destination without placeholders is returned unchanged |
| Resolver.FormatPathBySplitting | dotconfig.rs:75-79 | each pass splits on its placeholder and joins with its directory, in the order `$UNIX_CONFIG`, `$CONFIG`, `$HOME` |
| Resolver.FormatPathHomeAndUnixConfig | dotconfig.rs:76-78 | `$HOME<mid>$UNIX_CONFIG` becomes the home directory, then `mid`, then the home directory's `.config` |
| Resolver.UnixConfigPassAfterHome | dotconfig.rs:76 | the `$UNIX_CONFIG` pass does not mistake `$HOME` for its token |
| Resolver.HomeOnlyPasses | dotconfig.rs:77-78 | `$HOME` is not touched by the `$CONFIG` pass and is replaced by the `$HOME` pass |
| Resolver.FormatPathRescansInsertedText | dotconfig.rs:76-77 | text inserted by the `$UNIX_CONFIG` pass is rewritten again by the `$CONFIG` pass |
| Link.ReplaceWithLink | dotconfig.rs:114-147 | (definition) the second half of `dot_link`: skip a link to the source; otherwise remove what is at the destination (whole subtree for a directory), aborting when that is refused, then create the link |
| Link.LinkSpec | dotconfig.rs:96-148 | `dot_link` never yields the "no destination" outcome; that skip belongs to `main` |
| Link.DotLink | dotconfig.rs:96-148 | the outcome and the final filesystem of `dot_link` are those of `LinkSpec` on the initial filesystem and the source's absolute path |
| Link.NothingToLinkNoChange | dotconfig.rs:99-101 | with neither side present, `dot_link` returns and changes nothing |
| Link.LinkedStateIsStable | dotconfig.rs:114-129 | a destination that already links to the source is left alone and reported as already linked, or as nothing to link when the source is gone |
| Link.UnlinkableStateIsStable | dotconfig.rs:139-146 | an absent destination that cannot be linked stays as it is |
| Link.LinkedLeavesLink | dotconfig.rs:139-147 | a successful call leaves the destination linked to the source |
| Link.ReplaceLeavesLink | dotconfig.rs:114-147 | the replacing half, when it succeeds, leaves the destination linked to the source |
| Link.OnlyLinkingChanges | dotconfig.rs:99-137 | a call that neither links nor fails after clearing changes nothing |
| Link.UnnamedDestinationNeverLinked | dotconfig.rs:139 | a destination that is empty or ends in `/` is never linked, because `symlink` refuses it |
| Link.ReplaceNeverLinksUnnamed | dotconfig.rs:114-147 | the replacing half never links a destination that is empty or ends in `/` |
| Link.LinkFailedIsStable | dotconfig.rs:139-146 | after a failed link, a second call changes nothing |
| Link.DotLinkIdempotent | dotconfig.rs:96-148 | a second `dot_link` on the same pair leaves the filesystem as the first left it; after a successful link it reports the link as already there, or nothing to link when the source has vanished |
| Link.FirstRunMovesDestinationIntoSource | dotconfig.rs:102-147 | with only the destination present: the whole destination subtree moves to the source path and the destination becomes a link; a failed move changes nothing; nothing outside the two subtrees changes |
| Link.OverwriteReplacesDestination | dotconfig.rs:114-147 | with the source present and the destination not a correct link: the destination, with its whole subtree, is replaced by a link; the run panics exactly when removal is refused; nothing outside the destination's subtree changes |
| Copy.CopySpec | dotconfig.rs:150-186 | (definition) `copy`: a missing source aborts; a directory source copies its listed entries with `CopyEntries`; any other source is copied onto `to` itself, reporting the source on failure |
| Copy.CopyEntries | dotconfig.rs:160-170 | (definition) the directory loop as a fold over the listing with `CopyEntry` |
| Copy.CopyEntry | dotconfig.rs:160-169 | (definition) one turn: after a failure nothing more; an entry that is not a regular file is passed over; a file is copied to `to/<name>`, a refused copy recording the entry |
| Copy.CopyFileSource | dotconfig.rs:171 | a regular-file source is copied onto `to` itself, created when missing and overwritten when a file; nothing else changes |
| Copy.CopyNonDirectorySource | dotconfig.rs:171-178 | a source that is no directory is copied or fails naming the source; it fails exactly when `fs::copy` refuses, and then nothing changes |
| Copy.CopyLinkToDirectoryFails | dotconfig.rs:151-171 | a source that is a link to a directory is not read as a directory; its copy fails and nothing changes |
| Copy.CopyOntoDirectoryFails | dotconfig.rs:171-178 | a file is not copied into a destination directory: the copy fails and nothing changes |
| Copy.CopyOntoSlashedPathFails | dotconfig.rs:171-178 | a file copied onto a path ending in `/` fails naming the source, and nothing changes |
| Copy.ReadDir | dotconfig.rs:159 | the listing holds every entry of the directory exactly once |
| Copy.CopyEntryInto | dotconfig.rs:160-169 | one turn of the directory loop: a regular file is copied to `to/<name>`, other entries are passed over, and a failure is reported with the entry |
| Copy.CopyEntriesInto | dotconfig.rs:160-170 | the directory loop's final filesystem and failing entry are those of `CopyEntries` over the listing |
| Copy.CopyPath | dotconfig.rs:150-186 | `copy` reads a listing only for a directory source, and its outcome and final filesystem are those of `CopySpec` |
| Copy.CopyStopsAtFirstFailure | dotconfig.rs:162-168 | once an entry has failed, later entries are not copied |
| Copy.CopyPlainEntry | dotconfig.rs:160-162 | a plain regular file is written to its target with its contents; a directory entry is passed over |
| Copy.CopyEntriesCopiesEveryFile | dotconfig.rs:158-170 | with plain entries and a writable destination directory, the copy succeeds, every regular file is at `to/<name>` with its contents, and nothing else changes |
| Passes.Pass | dotconfig.rs:203-219 | a loop records at most one outcome per item, and stops short only after a panic |
| Passes.PassPanicsLast | dotconfig.rs:203-219 | a panic can only be the last outcome |
| Passes.PassAbortStops | dotconfig.rs:203-219 | after a panic no later item is visited |
| Passes.PassInOrder | dotconfig.rs:203-219 | outcomes come in item order: a prefix of the items yields a prefix of the outcomes |
| Passes.PassSkipsExactly | dotconfig.rs:203-219 | when a turn skips exactly the items a predicate selects, outcome `i` is a skip exactly when item `i` is selected |
| Passes.PassAllSkipped | dotconfig.rs:203-219 | when every turn is a skip that changes nothing, the run skips all items and leaves the state as it was |
| Driver.LinkTurn | dotconfig.rs:204-209 | (definition) one symlink turn: skip when the destination resolves to the empty string, otherwise `LinkSpec` with the source joined to the working directory |
| Driver.CopyTurn | dotconfig.rs:213-218 | (definition) one copy turn: skip when the destination resolves to the empty string, otherwise `CopySpec` |
| Driver.LinkMapping | dotconfig.rs:204-209 | one symlink turn resolves the destination and, unless it is empty, does what `dot_link` does |
| Driver.LinkAll | dotconfig.rs:203-210 | the symlink loop's outcomes and final filesystem are the pass of the symlink turns over the mappings |
| Driver.CopyMapping | dotconfig.rs:213-218 | one copy turn resolves the destination and, unless it is empty, does what `copy` does, with a listing that fits the source |
| Driver.CopyAll | dotconfig.rs:212-219 | the copy loop visits every mapping, or a prefix ending in a missing source; its outcomes and final filesystem are the pass of the copy turns over the visited mappings |
| Driver.Reconcile | dotconfig.rs:203-219 | the copy loop runs from where the symlink loop left the filesystem, and does not run when the symlink loop panicked |
| Driver.LinkTurnSkips | dotconfig.rs:204-207 | a symlink turn is skipped exactly when the destination resolves to empty, and the skip changes nothing |
| Driver.CopyTurnSkips | dotconfig.rs:213-216 | a copy turn is skipped exactly when the destination resolves to empty, and the skip changes nothing |
| Driver.LinkSkipsExactlyUnresolved | dotconfig.rs:203-210 | symlink outcome `i` is "no destination" exactly when mapping `i` resolves to empty |
| Driver.LinkNothingWhenUnresolved | dotconfig.rs:203-210 | when no symlink mapping resolves on this host, the loop skips them all and changes nothing |
| Driver.CopySkipsExactlyUnresolved | dotconfig.rs:212-219 | copy outcome `i` is "no destination" exactly when mapping `i` resolves to empty |
| Driver.CopyNothingWhenUnresolved | dotconfig.rs:212-219 | when no copy mapping resolves on this host, the loop skips them all and changes nothing |
| PhpSetup.CreatePath | dotconfig_setup.php:17-23 | (definition) `createPath`: a text path is exploded on `/`, a list is taken as it is, and the parts are imploded with the separator |
| PhpSetup.IsLink | dotconfig_setup.php:8 | (definition) `is_link`: the entry itself is a symbolic link, not followed |
| PhpSetup.LinkSource | dotconfig_setup.php:5 | (definition) the link source: `createPath` of the script directory, `/`, and `from` |
| PhpSetup.DotLinkSpec | dotconfig_setup.php:8-14 | (definition) `dotLink`'s decision: skip when the destination is a link; otherwise `rm -rf`, then `ln -s`, each leaving the tree as it was when it fails |
| PhpSetup.CreatePathReplacesSlashes | dotconfig_setup.php:17-23 | for a text path, every `/` becomes the separator and nothing else changes |
| PhpSetup.CreatePathUnixIdentity | dotconfig_setup.php:17-23 | with `/` as the separator, a text path comes back unchanged |
| PhpSetup.CreatePathOfPartsInOrder | dotconfig_setup.php:22 | a list of components is joined in order, with one separator between two lists |
| PhpSetup.CreatePathSeparatorCount | dotconfig_setup.php:22 | `n` components give `n - 1` separators beyond those inside them |
| PhpSetup.ExplodeWithoutSlash | dotconfig_setup.php:20 | a text path without `/` is one component |
| PhpSetup.LinkSourceJoins | dotconfig_setup.php:5 | the link source is the script directory's path, one separator, then the path of `from` |
| PhpSetup.LinkSourceOfPlainNames | dotconfig_setup.php:5 | for plain names, the link source is the directory and `from` joined by one separator |
| PhpSetup.DotLinkPhp | dotconfig_setup.php:3-15 | the report and final filesystem of `dotLink` are those of `DotLinkSpec` on the created source and destination paths |
| PhpSetup.SkipsAnyLink | dotconfig_setup.php:8-14 | the call is a skip exactly when the destination is a link of any kind, and a skip changes nothing |
| PhpSetup.EmptyDestinationChangesNothing | dotconfig_setup.php:6-10 | `dotLink` with an empty destination reports a link but changes nothing: `rm -rf ""` removes nothing and `ln -s` cannot create the empty path |
| PhpSetup.RmRfClears | dotconfig_setup.php:9 | `rm -rf` on a removable path (not the root, no entry in a sealed directory) leaves nothing at or below it and changes nothing else |
| PhpSetup.ReplacesNonLink | dotconfig_setup.php:8-11 | a removable destination that is not a link, in a writable existing directory, is replaced by a link to the source; nothing outside its subtree changes |
| PhpSetup.UnremovableDirectoryGetsLinkInside | dotconfig_setup.php:9-10 | a destination directory that `rm -rf` cannot clear receives the link inside it, under the source's last component with trailing slashes ignored |
| PhpSetup.DotLinkPhpIdempotent | dotconfig_setup.php:3-15 | a second `dotLink` on the same pair leaves the filesystem as the first left it, and is a skip once the destination is a link |
| PhpSetup.DotLinkPhpTwiceSkips | dotconfig_setup.php:3-15 | once the destination is a link, or could be replaced by one, a second call is a skip that changes nothing |

## Left out

- **Dependency installation:** `main`'s third loop over `cargo` and `bash`
  dependencies (`dotconfig.rs:221-271`). It runs external processes.
- **Configuration source:** parsing the RON configuration file embedded in
  the binary. The model takes the lists of mappings as inputs.
- **Config-directory creation:** `main` first creates the per-user
  configuration directory (`dotconfig.rs:192-201`). `create_dir` failing
  with `AlreadyExists` is tolerated; any other failure returns from `main`
  before both loops. `Driver.Reconcile` models only the run after that step
  has succeeded, starting from whatever filesystem it left.
- **Messages:** the `info`/`error` output of both tools (terminal I/O only)
  and the `Display` impl of `OsOrString`.
- **Host facts as inputs:** the home directory, the per-user configuration
  directory, the working directory and the platform are parameters. They are
  not looked up, so the panics of `home_dir`/`config_local_dir` and of the
  `to_str().unwrap()` on a path that is not valid UTF-8 are not modelled.
- **Links inside paths:** symbolic links are followed only on the last
  component of a path, with Linux's bound of 40 hops. Links in intermediate
  directories are not resolved.
- **Path normalisation:** paths are compared as text. `Path` equality and
  `.`/`..` handling are not modelled.
- **The root:** `rm -rf /` is refused, as GNU `rm` does by default. For
  `rename` and `remove_dir_all` the subtree of `/` is taken as text (an
  entry below `p` is written `p/...`), so it holds `/` itself and not the
  entries written `/name`; the tools never rename or remove the root.
- **Entries at unnamed paths:** a tree is not required to be free of an
  entry at the empty path or at a path ending in `/`, but no call creates
  one (`FileSystemModel.UnnamedNeverCreated`,
  `FileSystemModel.UnnamedNotRenamedTo`), so
  `PhpSetup.EmptyDestinationChangesNothing` assumes there is none at `""`.
- **Paths with a trailing `/` are not looked up through:** the kernel takes
  `d/` as the directory `d` for lookups and removals. The model compares
  paths as text, so `d/` is a missing entry even when `d` exists. Creation
  at `d/` is refused as on Linux, and the lines below say what the other
  calls then do differently.
- FileSystemModel.RmRfResult: `rm -rf d/` removes the directory `d` and its subtree; the model finds nothing at `d/` and removes nothing.
- FileSystemModel.FileSystem.RmRf: applies `RmRfResult`, so `rm -rf d/` removes nothing here either.
- FileSystemModel.LnSResult: `ln -s t d/` with `d` a directory creates `d/<name>`; the model finds no directory at `d/` and the call fails.
- FileSystemModel.FileSystem.LnS: applies `LnSResult`, so `ln -s t d/` fails here too instead of creating `d/<name>`.
- FileSystemModel.RenameResult: `rename` onto `d/` is allowed on Linux for a directory source; the model refuses it, because `d/` names no entry.
- FileSystemModel.WriteTarget: a destination `d/` that is an existing directory or a missing path is refused, as on Linux (`EISDIR`, `ENOENT`); a destination `f/` with `f` a regular file is also refused, as Linux does with `ENOTDIR`. Only the kind of error differs, and errors are not modelled.
- FileSystemModel.SymlinkResult: refuses a link path ending in `/` as Linux does; a target ending in `/` is stored as written, as `symlink` does.
- FileSystemModel.CopyFileResult: a destination ending in `/` is refused through `WriteTarget`, as on Linux; a source written `f/` is seen as missing and refused; the real `fs::copy` refuses it too, for a file because the kernel does (`ENOTDIR`) and for a directory because it is not a regular file.
- FileSystemModel.FileSystem.CreateSymlink: applies `SymlinkResult`, with the same refusal of a path ending in `/`.
- FileSystemModel.FileSystem.CopyFile: applies `CopyFileResult`, with the same refusal of a destination ending in `/`.
- Link.LinkSpec: with a destination `d/` and `d` a directory, the real `dot_link` sees the directory, removes it with `remove_dir_all` (`dotconfig.rs:133`), and then `symlink` fails, so the result is a failed link with `d` gone. The model sees a missing destination: it reports a failed link with `d` kept (`Link.UnnamedDestinationNeverLinked`), or, when the source is missing, nothing to link with nothing changed, where the real code first moves `d` into the repository (`dotconfig.rs:104`) and then fails to link. A source written `s/` is likewise seen as missing, so the model tries to move the destination into it where the real code links to it.
- Link.DotLink: is proved equal to `LinkSpec`, so the same difference holds for a destination or source written with a trailing `/`.
- Copy.CopySpec: a source written `fonts/` is seen as missing, so the run stops on a missing source. The real `symlink_metadata` resolves it to the directory, whose files are copied.
- Copy.CopyPath: is proved equal to `CopySpec`, so a source written with a trailing `/` stops the run here too.
- PhpSetup.DotLinkSpec: for a destination `d/` that is a directory, the real `rm -rf` removes `d` and then `ln -s` fails. The model removes nothing and `ln -s` fails, so `d` is kept. The report is "linked" either way, because the script prints it without checking.
- PhpSetup.DotLinkPhp: is proved equal to `DotLinkSpec`, so a destination `d/` that is a directory is kept here too, where the real script removes it.
- **Partial removal:** `rename`, `remove_dir_all` and `rm -rf` either succeed
  completely or change nothing. A removal that stops half-way is not
  modelled.
- **Copying a file onto itself:** `fs::copy` of a file onto itself, which
  truncates it, is modelled as a plain write of the same contents.
- **Listing failures:** failures of `read_dir` and of individual directory
  entries (the `flatten` that drops them) are not modelled. `read_link`'s
  failure at `dotconfig.rs:116` cannot occur in the model, because an entry
  just seen to be a link can always be read.
- **Relative destinations:** a relative `to` is used as the path itself
  rather than being resolved against the working directory.
- **PHP shell commands:** the exit status and quoting of `exec`. A path
  holding `"` would break the shell command; the model runs both commands
  as the file operations they name.
- **PHP separator:** `PhpSetup.DotLinkPhp` uses `/` as `DIRECTORY_SEPARATOR`,
  the Unix value. `CreatePath` itself takes the separator as a parameter.
- Driver.CopyAll: the contract describes the run over the mappings it visited (all of them, or a prefix ending in a missing source), because the directory listings of later mappings are never read; the run over all mappings is stated only in that form.
- Link.DotLinkIdempotent: the second call's outcome is stated only after a successful first link; in every other case only the filesystem is stated to stay unchanged.
- PhpSetup.DotLinkPhpIdempotent: the two calls are separate runs of the script. PHP caches the `lstat` result behind `is_link`, and `exec` does not clear that cache, so a second `dotLink` on the same destination in the same process would still see a non-link and run `rm -rf` and `ln -s` again; the stat cache is not modelled.
