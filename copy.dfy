/**
 * `copy`: mirrors a source into a destination. A directory source has its
 * direct regular-file entries copied one by one into the destination
 * directory under the same names; the first failure ends the copy. Any
 * other source is copied onto the destination path itself.
 */
module Copy {
  import opened Wrappers
  import opened Paths
  import opened FileSystemModel

  datatype CopyOutcome =
    | NoDestination        // the mapping resolved to "": not copied on this platform
    | SourceMissing        // the source has no metadata: the run aborts
    | Copied
    | CopyFailed(entry: Path)

  datatype CopyStep = CopyStep(outcome: CopyOutcome, after: Tree)

  /** The result of copying the entries of `entries`, in order, into `to`; `failed` is the entry that stopped it. */
  datatype EntriesResult = EntriesResult(after: Tree, failed: Option<Path>)

  /** Where the entry `e` goes inside the destination directory `to`. */
  function EntryTarget(to: Path, e: Path): Path
  {
    Join(to, Name(e))
  }

  /** `EntryTarget` with the destination directory fixed. */
  function Into(to: Path): Path -> Path
  {
    e => EntryTarget(to, e)
  }

  /**
   * The loop of lines 160-170 over `entries`: entries that are not regular
   * files are passed over, each file is copied to `to/<its name>`, and the
   * first failing copy stops the loop.
   */
  function CopyEntries(fs: Tree, sealed: set<Path>, entries: seq<Path>, to: Path): EntriesResult
    decreases |entries|
  {
    if entries == [] then EntriesResult(fs, None)
    else CopyEntry(CopyEntries(fs, sealed, entries[..|entries| - 1], to), sealed, entries[|entries| - 1], to)
  }

  /** One turn of that loop, for the entry `e`, unless an earlier entry failed. */
  function CopyEntry(prev: EntriesResult, sealed: set<Path>, e: Path, to: Path): EntriesResult
  {
    if prev.failed.Some? || !IsFile(prev.after, e) then prev
    else match CopyFileResult(prev.after, sealed, e, EntryTarget(to, e))
      case None => EntriesResult(prev.after, Some(e))
      case Some(next) => EntriesResult(next, None)
  }

  /** `listing` lists the entries of the directory `dir`, each once. */
  ghost predicate IsListing(fs: Tree, dir: Path, listing: seq<Path>)
  {
    && (forall i, j :: 0 <= i < j < |listing| ==> listing[i] != listing[j])
    && (forall e :: e in listing <==> e in Children(fs, dir))
  }

  /** What one `copy(src, to)` call does, given the order `listing` in which `read_dir` yields the entries. */
  function CopySpec(fs: Tree, sealed: set<Path>, src: Path, to: Path, listing: seq<Path>): CopyStep
  {
    if src !in fs then CopyStep(SourceMissing, fs)
    else if fs[src].Dir? then
      var r := CopyEntries(fs, sealed, listing, to);
      CopyStep(if r.failed.None? then Copied else CopyFailed(r.failed.value), r.after)
    else match CopyFileResult(fs, sealed, src, to)
      case None => CopyStep(CopyFailed(src), fs)
      case Some(next) => CopyStep(Copied, next)
  }

  /** `read_dir(dir)`: the entries of `dir`, in an order the filesystem chooses. */
  method ReadDir(fs: FileSystem, dir: Path) returns (listing: seq<Path>)
    ensures IsListing(fs.nodes, dir, listing)
  {
    var rest := Children(fs.nodes, dir);
    listing := [];
    while rest != {}
      invariant forall i, j :: 0 <= i < j < |listing| ==> listing[i] != listing[j]
      invariant forall e :: e in listing ==> e !in rest
      invariant forall e :: e in listing || e in rest <==> e in Children(fs.nodes, dir)
      decreases rest
    {
      var e :| e in rest;
      listing := listing + [e];
      rest := rest - {e};
    }
  }

  /**
   * The loop of lines 160-170: copies the regular files among `entries` into
   * `to`, returning at the first failure with the entry that failed.
   */
  method CopyEntriesInto(fs: FileSystem, entries: seq<Path>, to: Path) returns (failed: Option<Path>)
    modifies fs
    ensures EntriesResult(fs.nodes, failed) == CopyEntries(old(fs.nodes), fs.sealed, entries, to)
  {
    var i := 0;
    failed := None;
    while i < |entries| && failed.None?
      invariant 0 <= i <= |entries|
      invariant CopyEntries(old(fs.nodes), fs.sealed, entries[..i], to) == EntriesResult(fs.nodes, failed)
    {
      var e := entries[i];
      assert CopyEntries(old(fs.nodes), fs.sealed, entries[..i + 1], to) == CopyEntry(EntriesResult(fs.nodes, None), fs.sealed, e, to) by {
        assert entries[..i + 1][..i] == entries[..i];
      }
      var ok := CopyEntryInto(fs, e, to);
      if !ok {
        failed := Some(e);
      }
      i := i + 1;
    }
    if failed.Some? {
      assert entries[..i] + entries[i..] == entries;
      CopyStopsAtFirstFailure(old(fs.nodes), fs.sealed, entries[..i], entries[i..], to);
    } else {
      assert entries[..i] == entries;
    }
  }

  /** One turn of the loop of lines 160-170: a regular file `e` is copied into `to`; `ok` is false when that copy fails. */
  method CopyEntryInto(fs: FileSystem, e: Path, to: Path) returns (ok: bool)
    modifies fs
    ensures CopyEntry(EntriesResult(old(fs.nodes), None), fs.sealed, e, to) == EntriesResult(fs.nodes, if ok then None else Some(e))
  {
    ok := true;
    if IsFile(fs.nodes, e) {
      ok := fs.CopyFile(e, EntryTarget(to, e));
    }
  }

  /**
   * `copy(from, to)` with the working directory `cwd`. `listing` is the order
   * in which the source directory's entries were visited (empty for a file).
   */
  method CopyPath(fs: FileSystem, cwd: Path, from: Path, to: Path) returns (outcome: CopyOutcome, listing: seq<Path>)
    modifies fs
    ensures var src := Join(cwd, from);
            && (if src in old(fs.nodes) && old(fs.nodes)[src].Dir? then IsListing(old(fs.nodes), src, listing) else listing == [])
            && CopyStep(outcome, fs.nodes) == CopySpec(old(fs.nodes), fs.sealed, src, to, listing)
  {
    var src := Join(cwd, from);
    listing := [];
    if src !in fs.nodes {
      return SourceMissing, listing;
    }
    if fs.nodes[src].Dir? {
      listing := ReadDir(fs, src);
      var failed := CopyEntriesInto(fs, listing, to);
      outcome := if failed.None? then Copied else CopyFailed(failed.value);
    } else {
      var ok := fs.CopyFile(src, to);
      outcome := if ok then Copied else CopyFailed(src);
    }
  }

  /** Once an entry has failed, later entries are not copied. */
  lemma {:induction false} CopyStopsAtFirstFailure(fs: Tree, sealed: set<Path>, entries: seq<Path>, more: seq<Path>, to: Path)
    requires CopyEntries(fs, sealed, entries, to).failed.Some?
    ensures CopyEntries(fs, sealed, entries + more, to) == CopyEntries(fs, sealed, entries, to)
    decreases |more|
  {
    if more != [] {
      var all := entries + more;
      assert all[..|all| - 1] == entries + more[..|more| - 1];
      CopyStopsAtFirstFailure(fs, sealed, entries, more[..|more| - 1], to);
    } else {
      assert entries + more == entries;
    }
  }

  /**
   * A regular-file source is copied onto `to` itself, which is created when
   * missing and overwritten when a regular file; nothing else changes.
   */
  lemma CopyFileSource(fs: Tree, sealed: set<Path>, src: Path, to: Path, listing: seq<Path>)
    requires src in fs && fs[src].File?
    requires (to in fs && fs[to].File?) || (to !in fs && ParentIsDir(fs, to))
    requires MayModify(sealed, to)
    ensures CopySpec(fs, sealed, src, to, listing) == CopyStep(Copied, fs[to := fs[src]])
  {
    assert Resolve(fs, src, MaxSymlinkHops) == Some(src);
  }

  /**
   * A source that is not a directory is either copied onto `to`, or the copy
   * fails naming the source and nothing changes; the failure happens exactly
   * when `fs::copy` refuses.
   */
  lemma CopyNonDirectorySource(fs: Tree, sealed: set<Path>, src: Path, to: Path, listing: seq<Path>)
    requires src in fs && !fs[src].Dir?
    ensures var r := CopySpec(fs, sealed, src, to, listing);
            && r.outcome in {Copied, CopyFailed(src)}
            && (r.outcome == CopyFailed(src) <==> CopyFileResult(fs, sealed, src, to).None?)
            && (r.outcome == CopyFailed(src) ==> r.after == fs)
  {
  }

  /** A source that is a link to a directory is not copied: `symlink_metadata` does not follow it, and `fs::copy` refuses a directory. */
  lemma CopyLinkToDirectoryFails(fs: Tree, sealed: set<Path>, src: Path, to: Path, listing: seq<Path>)
    requires src in fs && fs[src].Symlink? && IsDir(fs, src)
    ensures CopySpec(fs, sealed, src, to, listing) == CopyStep(CopyFailed(src), fs)
  {
  }

  /** A file is not copied into a destination directory: `fs::copy` onto a directory fails and nothing changes. */
  lemma CopyOntoDirectoryFails(fs: Tree, sealed: set<Path>, src: Path, to: Path, listing: seq<Path>)
    requires src in fs && fs[src].File?
    requires to in fs && fs[to].Dir?
    ensures CopySpec(fs, sealed, src, to, listing) == CopyStep(CopyFailed(src), fs)
  {
  }

  /**
   * A file is not copied onto a path written with a trailing `/`: opening it
   * for writing fails (`EISDIR` or `ENOTDIR`) and nothing changes.
   */
  lemma CopyOntoSlashedPathFails(fs: Tree, sealed: set<Path>, src: Path, to: Path, listing: seq<Path>)
    requires src in fs && !fs[src].Dir?
    requires AllNamed(fs) && EndsInSlash(to)
    ensures CopySpec(fs, sealed, src, to, listing) == CopyStep(CopyFailed(src), fs)
  {
    assert to !in fs;
  }

  /**
   * The conditions under which a directory copy visits plain entries:
   * no entry is a link, entries have distinct names that hold no `/`, no
   * entry is itself a copy target, the destination is a writable directory
   * and no target is a directory or a link.
   */
  ghost predicate PlainCopy(fs: Tree, sealed: set<Path>, entries: seq<Path>, to: Path)
  {
    && IsAbsolute(to) && (to == "/" || to[|to| - 1] != '/')
    && to in fs && fs[to].Dir? && to !in sealed
    && (forall e :: e in entries ==> e in fs && !fs[e].Symlink? && |Name(e)| > 0)
    && (forall i, j :: 0 <= i < j < |entries| ==> Name(entries[i]) != Name(entries[j]))
    && (forall e, e' :: e in entries && e' in entries ==> EntryTarget(to, e) != e')
    && (forall e :: e in entries && EntryTarget(to, e) in fs ==> fs[EntryTarget(to, e)].File?)
  }

  /**
   * One turn over a plain entry: a directory is passed over, a regular file is
   * copied to its target in the writable directory `to`.
   */
  lemma CopyPlainEntry(s: Tree, sealed: set<Path>, e: Path, to: Path)
    requires e in s && !s[e].Symlink?
    requires to in s && s[to].Dir? && to !in sealed
    requires Parent(EntryTarget(to, e)) == to && !Unnamed(EntryTarget(to, e))
    requires EntryTarget(to, e) in s ==> s[EntryTarget(to, e)].File?
    ensures CopyEntry(EntriesResult(s, None), sealed, e, to)
         == EntriesResult(if s[e].File? then s[EntryTarget(to, e) := s[e]] else s, None)
  {
    assert Resolve(s, e, MaxSymlinkHops) == Some(e);
    if s[e].File? {
      WriteTargetInPlace(s, EntryTarget(to, e));
    }
  }

  /** The regular files among `entries`, each sent to `target(e)`. */
  ghost function TargetsOf(fs: Tree, entries: seq<Path>, target: Path -> Path): set<Path>
  {
    set e | e in entries && e in fs && fs[e].File? :: target(e)
  }

  /** Every regular file among `entries` is found, with its contents, at its target in `after`. */
  ghost predicate FilesAtTargets(fs: Tree, entries: seq<Path>, target: Path -> Path, after: Tree)
  {
    forall e :: e in entries && e in fs && fs[e].File? ==> target(e) in after && after[target(e)] == fs[e]
  }

  /** Outside the given targets, `after` is `fs`. */
  ghost predicate SameOutside(fs: Tree, targets: set<Path>, after: Tree)
  {
    forall q :: q !in targets ==> (q in after <==> q in fs) && (q in fs ==> after[q] == fs[q])
  }

  /** The regular files among `entries` have been copied to their targets in `after`, and nothing else differs from `fs`. */
  ghost predicate CopiedFiles(fs: Tree, entries: seq<Path>, target: Path -> Path, after: Tree)
  {
    FilesAtTargets(fs, entries, target, after) && SameOutside(fs, TargetsOf(fs, entries, target), after)
  }

  /** One more entry adds its target, when it is a regular file, to the targets. */
  lemma TargetsOfSnoc(fs: Tree, init: seq<Path>, e: Path, target: Path -> Path)
    requires e in fs
    ensures TargetsOf(fs, init + [e], target) == TargetsOf(fs, init, target) + (if fs[e].File? then {target(e)} else {})
  {
    var entries := init + [e];
    forall q | q in TargetsOf(fs, entries, target)
      ensures q in TargetsOf(fs, init, target) + (if fs[e].File? then {target(e)} else {})
    {
      var x :| x in entries && x in fs && fs[x].File? && target(x) == q;
      if x != e {
        assert x in init;
      }
    }
    forall q | q in TargetsOf(fs, init, target)
      ensures q in TargetsOf(fs, entries, target)
    {
      var x :| x in init && x in fs && fs[x].File? && target(x) == q;
      assert x in entries;
    }
  }

  /** Writing one more file at a target no earlier file uses keeps the earlier files where they are. */
  lemma FilesAtTargetsStep(fs: Tree, init: seq<Path>, e: Path, target: Path -> Path, prev: Tree)
    requires FilesAtTargets(fs, init, target, prev)
    requires e in fs && target(e) !in TargetsOf(fs, init, target)
    ensures FilesAtTargets(fs, init + [e], target, if fs[e].File? then prev[target(e) := fs[e]] else prev)
  {
    var after := if fs[e].File? then prev[target(e) := fs[e]] else prev;
    forall x | x in init + [e] && x in fs && fs[x].File?
      ensures target(x) in after && after[target(x)] == fs[x]
    {
      if x != e {
        assert x in init;
        assert target(x) in TargetsOf(fs, init, target);
      }
    }
  }

  /** Writing at one more target keeps everything outside the enlarged set of targets as it was. */
  lemma SameOutsideStep(fs: Tree, targets: set<Path>, t: Path, prev: Tree, after: Tree)
    requires SameOutside(fs, targets, prev)
    requires forall q :: q != t ==> (q in after <==> q in prev) && (q in prev ==> after[q] == prev[q])
    ensures SameOutside(fs, targets + {t}, after)
  {
  }

  /** Copying one more regular file (or passing over one more directory) extends `CopiedFiles` by that entry. */
  lemma CopiedFilesStep(fs: Tree, init: seq<Path>, e: Path, target: Path -> Path, prev: Tree)
    requires CopiedFiles(fs, init, target, prev)
    requires e in fs && target(e) !in TargetsOf(fs, init, target)
    ensures CopiedFiles(fs, init + [e], target, if fs[e].File? then prev[target(e) := fs[e]] else prev)
  {
    FilesAtTargetsStep(fs, init, e, target, prev);
    TargetsOfSnoc(fs, init, e, target);
    var targets := TargetsOf(fs, init, target);
    if fs[e].File? {
      SameOutsideStep(fs, targets, target(e), prev, prev[target(e) := fs[e]]);
    } else {
      assert targets + {} == targets;
    }
  }

  /**
   * Under `PlainCopy`, the last entry and its target are new: neither is the
   * target of an earlier entry, and the target is an entry of `to`.
   */
  lemma LastTargetIsNew(fs: Tree, sealed: set<Path>, entries: seq<Path>, to: Path)
    requires PlainCopy(fs, sealed, entries, to) && entries != []
    ensures var e := entries[|entries| - 1];
            var targets := TargetsOf(fs, entries[..|entries| - 1], Into(to));
            && Parent(EntryTarget(to, e)) == to && !Unnamed(EntryTarget(to, e))
            && e !in targets && EntryTarget(to, e) !in targets && to !in targets
  {
    var init := entries[..|entries| - 1];
    var e := entries[|entries| - 1];
    JoinSplits(to, Name(e));
    JoinNameEndsInName(to, Name(e));
    forall x | x in init
      ensures EntryTarget(to, x) != EntryTarget(to, e) && EntryTarget(to, x) != e && EntryTarget(to, x) != to
    {
      var k :| 0 <= k < |entries| - 1 && entries[k] == x;
      assert Name(entries[k]) != Name(entries[|entries| - 1]);
      JoinSplits(to, Name(x));
      assert x in entries;
    }
  }

  /** Under `PlainCopy`, the last turn extends a successful run over the earlier entries by one plain copy. */
  lemma LastEntryCopied(fs: Tree, sealed: set<Path>, entries: seq<Path>, to: Path)
    requires PlainCopy(fs, sealed, entries, to) && entries != []
    requires var prev := CopyEntries(fs, sealed, entries[..|entries| - 1], to);
             prev.failed.None? && CopiedFiles(fs, entries[..|entries| - 1], Into(to), prev.after)
    ensures var r := CopyEntries(fs, sealed, entries, to);
            r.failed.None? && CopiedFiles(fs, entries, Into(to), r.after)
  {
    var init := entries[..|entries| - 1];
    var e := entries[|entries| - 1];
    SplitLast(entries);
    var prev := CopyEntries(fs, sealed, init, to).after;
    LastTargetIsNew(fs, sealed, entries, to);
    LastEntryTurn(fs, sealed, entries, to, prev);
    CopiedFilesStep(fs, init, e, Into(to), prev);
  }

  /** The last turn of a plain run copies the last entry onto the state the earlier turns left. */
  lemma LastEntryTurn(fs: Tree, sealed: set<Path>, entries: seq<Path>, to: Path, prev: Tree)
    requires PlainCopy(fs, sealed, entries, to) && entries != []
    requires CopyEntries(fs, sealed, entries[..|entries| - 1], to) == EntriesResult(prev, None)
    requires CopiedFiles(fs, entries[..|entries| - 1], Into(to), prev)
    ensures var e := entries[|entries| - 1];
            CopyEntries(fs, sealed, entries, to)
            == EntriesResult(if fs[e].File? then prev[EntryTarget(to, e) := fs[e]] else prev, None)
  {
    var e := entries[|entries| - 1];
    var t := EntryTarget(to, e);
    LastTargetIsNew(fs, sealed, entries, to);
    assert prev[e] == fs[e] && prev[to] == fs[to];
    assert t in prev ==> t in fs && prev[t] == fs[t];
    CopyPlainEntry(prev, sealed, e, to);
  }

  /** A non-empty sequence is its prefix followed by its last element. */
  lemma SplitLast(s: seq<Path>)
    requires s != []
    ensures s == s[..|s| - 1] + [s[|s| - 1]]
  {
  }

  /** A prefix of plain entries is plain. */
  lemma PlainCopyPrefix(fs: Tree, sealed: set<Path>, entries: seq<Path>, to: Path, k: nat)
    requires PlainCopy(fs, sealed, entries, to) && k <= |entries|
    ensures PlainCopy(fs, sealed, entries[..k], to)
  {
    assert forall x :: x in entries[..k] ==> x in entries;
  }

  /**
   * A directory copy over plain entries succeeds and puts a copy of every
   * regular file at `to/<its name>`; directories among the entries are passed
   * over and nothing other than those targets changes.
   */
  lemma {:induction false} CopyEntriesCopiesEveryFile(fs: Tree, sealed: set<Path>, entries: seq<Path>, to: Path)
    requires PlainCopy(fs, sealed, entries, to)
    ensures var r := CopyEntries(fs, sealed, entries, to);
            r.failed.None? && CopiedFiles(fs, entries, Into(to), r.after)
    decreases |entries|
  {
    if entries != [] {
      var init := entries[..|entries| - 1];
      assert PlainCopy(fs, sealed, init, to) by {
        PlainCopyPrefix(fs, sealed, entries, to, |entries| - 1);
      }
      CopyEntriesCopiesEveryFile(fs, sealed, init, to);
      LastEntryCopied(fs, sealed, entries, to);
    }
  }
}
