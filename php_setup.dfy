/**
 * The PHP predecessor of the tool: `createPath` turns a `/`-separated path
 * (or a list of components) into one joined by the platform's directory
 * separator, and `dotLink` replaces the destination by a link to the
 * repository copy unless the destination already is a link of any kind.
 * Its two shell commands, `rm -rf` and `ln -s`, run without their exit
 * status being looked at.
 */
module PhpSetup {
  import opened Wrappers
  import opened Text
  import opened Paths
  import opened FileSystemModel

  /** The argument of `createPath`: a path as text, or its components. */
  datatype PathList = Text(s: string) | Parts(parts: seq<string>)

  /** `DIRECTORY_SEPARATOR` on the Unix hosts the script serves. */
  const UnixSeparator: char := '/'

  /** `createPath`: a text path is split on `/`; the components are joined with `sep`. */
  function CreatePath(paths: PathList, sep: char): string
  {
    var parts := match paths
      case Text(s) => Explode("/", s)
      case Parts(ps) => ps;
    Implode([sep], parts)
  }

  /** Every `/` of a text path becomes `sep`, and nothing else changes. */
  lemma CreatePathReplacesSlashes(s: string, sep: char)
    ensures CreatePath(Text(s), sep) == ReplaceAll(s, "/", [sep])
  {
    ReplaceAllIsImplodeExplode(s, "/", [sep]);
  }

  /** With `/` as the separator a text path comes back unchanged. */
  lemma CreatePathUnixIdentity(s: string)
    ensures CreatePath(Text(s), UnixSeparator) == s
  {
    ImplodeExplode("/", s);
  }

  /** Components are joined in order: the list `xs + ys` gives the path of `xs`, a separator, then the path of `ys`. */
  lemma CreatePathOfPartsInOrder(xs: seq<string>, ys: seq<string>, sep: char)
    requires |xs| > 0 && |ys| > 0
    ensures CreatePath(Parts(xs + ys), sep) == CreatePath(Parts(xs), sep) + [sep] + CreatePath(Parts(ys), sep)
  {
    ImplodeAppend([sep], xs, ys);
  }

  /** `n >= 1` components give exactly `n - 1` separators besides those inside the components. */
  lemma CreatePathSeparatorCount(parts: seq<string>, sep: char)
    requires |parts| >= 1
    ensures CountChar(sep, CreatePath(Parts(parts), sep)) == CountCharAll(sep, parts) + |parts| - 1
  {
    ImplodeSeparatorCount(sep, parts);
  }

  /** A text path without `/` is a single component. */
  lemma {:induction false} ExplodeWithoutSlash(s: string)
    requires NoSlash(s)
    ensures Explode("/", s) == [s]
    decreases |s|
  {
    if |s| >= 1 {
      ExplodeOtherFirst('/', s[0], s[1..]);
      ExplodeWithoutSlash(s[1..]);
      assert [s[0]] + s[1..] == s;
    }
  }

  /**
   * The link source `__DIR__ . "/" . $from` is the script directory's path,
   * one separator, then the path of `from`.
   */
  lemma LinkSourceJoins(dir: string, from: string, sep: char)
    ensures CreatePath(Text(dir + "/" + from), sep) == CreatePath(Text(dir), sep) + [sep] + CreatePath(Text(from), sep)
  {
    ExplodeAround('/', dir, from);
    ImplodeAppend([sep], Explode("/", dir), Explode("/", from));
  }

  /** When neither the script directory nor `from` holds a `/`, the source is the two joined by one separator. */
  lemma LinkSourceOfPlainNames(dir: string, from: string, sep: char)
    requires NoSlash(dir) && NoSlash(from)
    ensures CreatePath(Text(dir + "/" + from), sep) == dir + [sep] + from
  {
    LinkSourceJoins(dir, from, sep);
    ExplodeWithoutSlash(dir);
    ExplodeWithoutSlash(from);
  }

  /** The info line `dotLink` prints: the source was (re)linked, or skipped. */
  datatype Report = Linked | Skipping

  datatype PhpStep = PhpStep(report: Report, after: Tree)

  /** PHP `is_link`: the entry itself is a symbolic link (it is not followed). */
  predicate IsLink(fs: Tree, p: Path)
  {
    p in fs && fs[p].Symlink?
  }

  /**
   * What one `dotLink` call does to `fs` with the source path `fromPath` and
   * destination path `toPath`: unless `toPath` is a link, `rm -rf` then
   * `ln -s`, each leaving the filesystem as it was when it fails.
   */
  function DotLinkSpec(fs: Tree, sealed: set<Path>, fromPath: Path, toPath: Path): PhpStep
  {
    if IsLink(fs, toPath) then PhpStep(Skipping, fs)
    else
      var cleared := match RmRfResult(fs, sealed, toPath)
        case None => fs
        case Some(t) => t;
      var linked := match LnSResult(cleared, sealed, fromPath, toPath)
        case None => cleared
        case Some(t) => t;
      PhpStep(Linked, linked)
  }

  /** The link source for `from`, the script living in `scriptDir`. */
  function LinkSource(scriptDir: Path, from: Path): Path
  {
    CreatePath(Text(scriptDir + "/" + from), UnixSeparator)
  }

  /** `dotLink($from, $to)` run from a script in `scriptDir`. */
  method DotLinkPhp(fs: FileSystem, scriptDir: Path, from: Path, to: Path) returns (report: Report)
    modifies fs
    ensures PhpStep(report, fs.nodes) == DotLinkSpec(old(fs.nodes), fs.sealed, LinkSource(scriptDir, from), CreatePath(Text(to), UnixSeparator))
  {
    var fromPath := CreatePath(Text(scriptDir + "/" + from), UnixSeparator);
    var toPath := CreatePath(Text(to), UnixSeparator);
    if !IsLink(fs.nodes, toPath) {
      var removed := fs.RmRf(toPath);
      var linked := fs.LnS(fromPath, toPath);
      report := Linked;
    } else {
      report := Skipping;
    }
  }

  /** A destination that is a link, whatever it points at, is skipped and nothing changes. */
  lemma SkipsAnyLink(fs: Tree, sealed: set<Path>, fromPath: Path, toPath: Path)
    ensures var r := DotLinkSpec(fs, sealed, fromPath, toPath);
            && (r.report == Skipping <==> IsLink(fs, toPath))
            && (r.report == Skipping ==> r.after == fs)
  {
  }

  /**
   * `dotLink($from, "")`: `rm -rf ""` has nothing to remove and `ln -s`
   * cannot create the empty path, so the filesystem is left as it was.
   */
  lemma EmptyDestinationChangesNothing(fs: Tree, sealed: set<Path>, fromPath: Path)
    requires "" !in fs
    ensures DotLinkSpec(fs, sealed, fromPath, "") == PhpStep(Linked, fs)
  {
    assert Subtree(fs, "") == {};
    assert !IsDir(fs, "");
  }

  /** `rm -rf` can remove `p`: `p` is not the root and no entry at or below it sits in a sealed directory. */
  predicate Removable(fs: Tree, sealed: set<Path>, p: Path)
  {
    p != "/" && forall q :: q in Subtree(fs, p) ==> MayModify(sealed, q)
  }

  /** `rm -rf` of a removable path leaves nothing at or below it and nothing else changed. */
  lemma RmRfClears(fs: Tree, sealed: set<Path>, p: Path)
    requires Removable(fs, sealed, p)
    ensures RmRfResult(fs, sealed, p).Some?
    ensures var t := RmRfResult(fs, sealed, p).value;
            && (forall q :: q in t ==> !InSubtree(q, p))
            && (forall q :: !InSubtree(q, p) ==> (q in t <==> q in fs) && (q in fs ==> t[q] == fs[q]))
  {
  }

  /**
   * A destination that is not a link and that `rm -rf` can remove is replaced
   * by a link to the source, provided its directory exists and is writable:
   * afterwards `toPath` is that link, nothing remains below it, and nothing
   * outside its subtree has changed.
   */
  lemma ReplacesNonLink(fs: Tree, sealed: set<Path>, fromPath: Path, toPath: Path)
    requires !IsLink(fs, toPath) && Removable(fs, sealed, toPath)
    requires ParentIsDir(fs, toPath) && MayModify(sealed, toPath)
    ensures var r := DotLinkSpec(fs, sealed, fromPath, toPath);
            && r.report == Linked
            && toPath in r.after && r.after[toPath] == Symlink(fromPath)
            && (forall q :: q in r.after && InSubtree(q, toPath) ==> q == toPath)
            && (forall q :: !InSubtree(q, toPath) ==> (q in r.after <==> q in fs) && (q in fs ==> r.after[q] == fs[q]))
  {
    var cleared := fs - Subtree(fs, toPath);
    assert RmRfResult(fs, sealed, toPath) == Some(cleared);
    ParentSurvivesRemoval(fs, toPath);
    assert !IsDir(cleared, toPath);
    assert LnSResult(cleared, sealed, fromPath, toPath) == Some(cleared[toPath := Symlink(fromPath)]);
  }

  /** Removing the subtree of `p` keeps the directory that holds `p`. */
  lemma ParentSurvivesRemoval(fs: Tree, p: Path)
    requires ParentIsDir(fs, p)
    ensures ParentIsDir(fs - Subtree(fs, p), p)
  {
    var d := Parent(p);
    if d != "" && d != "/" {
      assert |d| < |p|;
      assert !InSubtree(d, p);
    }
  }

  /**
   * When `rm -rf` cannot remove a destination directory, `ln -s` still runs
   * and, the destination being a directory, creates the link inside it under
   * the source's last component.
   */
  lemma UnremovableDirectoryGetsLinkInside(fs: Tree, sealed: set<Path>, fromPath: Path, toPath: Path)
    requires toPath in fs && fs[toPath].Dir? && !Removable(fs, sealed, toPath)
    requires var inside := Join(toPath, BaseName(fromPath));
             inside !in fs && ParentIsDir(fs, inside) && MayModify(sealed, inside)
    ensures DotLinkSpec(fs, sealed, fromPath, toPath) == PhpStep(Linked, fs[Join(toPath, BaseName(fromPath)) := Symlink(fromPath)])
  {
    assert RmRfResult(fs, sealed, toPath).None?;
    assert Resolve(fs, toPath, MaxSymlinkHops) == Some(toPath);
  }

  /** Idempotence: a second `dotLink` on the same pair leaves the filesystem as the first left it. */
  lemma {:induction false} DotLinkPhpIdempotent(fs: Tree, sealed: set<Path>, fromPath: Path, toPath: Path)
    ensures var first := DotLinkSpec(fs, sealed, fromPath, toPath);
            var second := DotLinkSpec(first.after, sealed, fromPath, toPath);
            && second.after == first.after
            && (IsLink(first.after, toPath) ==> second.report == Skipping)
  {
    if !IsLink(fs, toPath) {
      if Removable(fs, sealed, toPath) {
        RemovedIsStable(fs, sealed, fromPath, toPath);
      } else {
        UnremovedIsStable(fs, sealed, fromPath, toPath);
      }
    }
  }

  /**
   * Once the destination is a link, or could be replaced by one, a second
   * `dotLink` on the same pair is a skip.
   */
  lemma DotLinkPhpTwiceSkips(fs: Tree, sealed: set<Path>, fromPath: Path, toPath: Path)
    requires IsLink(fs, toPath) || (Removable(fs, sealed, toPath) && ParentIsDir(fs, toPath) && MayModify(sealed, toPath))
    ensures var first := DotLinkSpec(fs, sealed, fromPath, toPath);
            DotLinkSpec(first.after, sealed, fromPath, toPath) == PhpStep(Skipping, first.after)
  {
    if !IsLink(fs, toPath) {
      ReplacesNonLink(fs, sealed, fromPath, toPath);
    }
  }

  /** The idempotence case where `rm -rf` succeeded: `toPath` is now a link, or absent and still not linkable. */
  lemma RemovedIsStable(fs: Tree, sealed: set<Path>, fromPath: Path, toPath: Path)
    requires !IsLink(fs, toPath) && Removable(fs, sealed, toPath)
    ensures var after := DotLinkSpec(fs, sealed, fromPath, toPath).after;
            DotLinkSpec(after, sealed, fromPath, toPath).after == after
  {
    var cleared := fs - Subtree(fs, toPath);
    assert RmRfResult(fs, sealed, toPath) == Some(cleared);
    assert !IsDir(cleared, toPath);
    var after := DotLinkSpec(fs, sealed, fromPath, toPath).after;
    if SymlinkResult(cleared, sealed, fromPath, toPath).None? {
      assert after == cleared;
      assert Subtree(cleared, toPath) == {};
      assert cleared - Subtree(cleared, toPath) == cleared;
    }
  }

  /** The idempotence case where `rm -rf` failed: the entry it stopped at is still there. */
  lemma UnremovedIsStable(fs: Tree, sealed: set<Path>, fromPath: Path, toPath: Path)
    requires !IsLink(fs, toPath) && !Removable(fs, sealed, toPath)
    ensures var after := DotLinkSpec(fs, sealed, fromPath, toPath).after;
            DotLinkSpec(after, sealed, fromPath, toPath).after == after
  {
    assert RmRfResult(fs, sealed, toPath).None?;
    var lnS := LnSResult(fs, sealed, fromPath, toPath);
    if lnS.None? {
      assert DotLinkSpec(fs, sealed, fromPath, toPath).after == fs;
    } else if IsDir(fs, toPath) {
      assert DotLinkSpec(fs, sealed, fromPath, toPath).after == lnS.value == fs[Join(toPath, BaseName(fromPath)) := Symlink(fromPath)];
      LinkInsideIsStable(fs, sealed, fromPath, toPath);
    } else {
      LinkAtDestinationIsStable(fs, sealed, fromPath, toPath);
    }
  }

  /** When `rm -rf` failed on a path that is no directory, `ln -s` made `toPath` itself a link, so a second call is a skip. */
  lemma LinkAtDestinationIsStable(fs: Tree, sealed: set<Path>, fromPath: Path, toPath: Path)
    requires !IsLink(fs, toPath) && RmRfResult(fs, sealed, toPath).None?
    requires !IsDir(fs, toPath) && LnSResult(fs, sealed, fromPath, toPath).Some?
    ensures var after := DotLinkSpec(fs, sealed, fromPath, toPath).after;
            DotLinkSpec(after, sealed, fromPath, toPath).after == after
  {
    var after := fs[toPath := Symlink(fromPath)];
    assert DotLinkSpec(fs, sealed, fromPath, toPath).after == after;
    assert IsLink(after, toPath);
  }

  /** After a link was made inside an unremovable destination directory, a second call finds it there and changes nothing. */
  lemma LinkInsideIsStable(fs: Tree, sealed: set<Path>, fromPath: Path, toPath: Path)
    requires !IsLink(fs, toPath) && IsDir(fs, toPath) && !Removable(fs, sealed, toPath)
    ensures var after := fs[Join(toPath, BaseName(fromPath)) := Symlink(fromPath)];
            DotLinkSpec(after, sealed, fromPath, toPath).after == after
  {
    var inside := Join(toPath, BaseName(fromPath));
    var after := fs[inside := Symlink(fromPath)];
    assert toPath in fs && fs[toPath].Dir?;
    if inside != toPath {
      assert after[toPath] == fs[toPath];
      if toPath != "/" {
        var q :| q in Subtree(fs, toPath) && !MayModify(sealed, q);
        assert q in Subtree(after, toPath);
      }
      assert RmRfResult(after, sealed, toPath).None?;
      assert Resolve(after, toPath, MaxSymlinkHops) == Some(toPath);
    }
  }
}
