/**
 * The filesystem both tools act on: a map from path to node, with the POSIX
 * operations they call (`exists`, `symlink_metadata`, `read_link`, `rename`,
 * `remove_file`, `remove_dir_all`, `symlink`, `fs::copy`, `read_dir`).
 *
 * Failures of these calls come from the state: a missing entry, a parent that
 * is not a directory, an entry already in the way, and the `sealed` set of
 * directories in which this process may not create, remove, rename or write
 * entries (standing for permission errors).
 */
module FileSystemModel {
  import opened Wrappers
  import opened Paths

  newtype byte = x: int | 0 <= x < 256

  datatype Node = Dir | File(contents: seq<byte>) | Symlink(target: Path)

  type Tree = map<Path, Node>

  /** How many symbolic links one lookup follows before giving up (Linux `MAXSYMLINKS`). */
  const MaxSymlinkHops: nat := 40

  /** A relative link target is taken relative to the directory holding the link. */
  function TargetPath(link: Path, target: Path): (r: Path)
    ensures IsAbsolute(target) ==> r == target
  {
    if IsAbsolute(target) then target else Join(Parent(link), target)
  }

  /**
   * Follows `p` through at most `hops` symbolic links to the entry it denotes;
   * `None` for a missing entry, a dangling link or too many links.
   */
  function Resolve(fs: Tree, p: Path, hops: nat): (r: Option<Path>)
    ensures r.Some? ==> r.value in fs && !fs[r.value].Symlink?
    ensures r.Some? && p in fs && !fs[p].Symlink? ==> r.value == p
    decreases hops
  {
    if p !in fs then None
    else match fs[p]
      case Symlink(t) => if hops == 0 then None else Resolve(fs, TargetPath(p, t), hops - 1)
      case _ => Some(p)
  }

  /** Rust `Path::exists`: follows symbolic links, so a dangling link does not exist. */
  predicate Exists(fs: Tree, p: Path)
  {
    Resolve(fs, p, MaxSymlinkHops).Some?
  }

  /** Rust `Path::is_file`: follows symbolic links to a regular file. */
  predicate IsFile(fs: Tree, p: Path)
  {
    var r := Resolve(fs, p, MaxSymlinkHops);
    r.Some? && fs[r.value].File?
  }

  /** Follows symbolic links to a directory. */
  predicate IsDir(fs: Tree, p: Path)
  {
    var r := Resolve(fs, p, MaxSymlinkHops);
    r.Some? && fs[r.value].Dir?
  }

  /** The entries at or below `p`. */
  function Subtree(fs: Tree, p: Path): set<Path>
  {
    set q | q in fs && InSubtree(q, p)
  }

  /** The direct entries of the directory `d`, as `read_dir` lists them. */
  function Children(fs: Tree, d: Path): set<Path>
  {
    set q | q in fs && q != d && Parent(q) == d
  }

  /**
   * A path that names no entry of its own: the empty path, or one ending in
   * a `/` other than the root.
   */
  predicate Unnamed(p: Path)
  {
    p == "" || EndsInSlash(p)
  }

  /** Every entry of the tree sits at a path that names it. */
  predicate AllNamed(fs: Tree)
  {
    forall q :: q in fs ==> !Unnamed(q)
  }

  /**
   * `p` names an entry whose directory exists (the root and the working
   * directory always do). Nothing can be created at an unnamed path:
   * `symlink` and `open` with `O_CREAT` refuse the empty path and a path
   * ending in `/`.
   */
  predicate ParentIsDir(fs: Tree, p: Path)
  {
    var d := Parent(p);
    !Unnamed(p) && (d == "" || d == "/" || (d in fs && fs[d].Dir?))
  }

  /** The process may create, remove, rename or write the entry `p`. */
  predicate MayModify(sealed: set<Path>, p: Path)
  {
    Parent(p) !in sealed
  }

  /** The state after the subtree of `src` is moved to `dst`, replacing what was at `dst`. */
  function Moved(fs: Tree, src: Path, dst: Path): Tree
    requires dst != ""
  {
    RebaseInjective(src, dst);
    var kept := fs - Subtree(fs, src) - Subtree(fs, dst);
    kept + map q | q in Subtree(fs, src) :: Rebase(q, src, dst) := fs[q]
  }

  /**
   * `rename(src, dst)`: fails for a missing `src`, a missing parent of `dst`,
   * a sealed directory, a move into its own subtree or onto an ancestor, a
   * directory replacing a non-directory or a non-empty directory, and a
   * non-directory replacing a directory.
   */
  function RenameResult(fs: Tree, sealed: set<Path>, src: Path, dst: Path): Option<Tree>
  {
    if src !in fs || !ParentIsDir(fs, dst) || !MayModify(sealed, src) || !MayModify(sealed, dst) then None
    else if src == dst then Some(fs)
    else if InSubtree(dst, src) || InSubtree(src, dst) then None
    else if dst in fs && (if fs[dst].Dir? then !fs[src].Dir? || Subtree(fs, dst) != {dst} else fs[src].Dir?) then None
    else Some(Moved(fs, src, dst))
  }

  /** `remove_file(p)`: removes a non-directory entry. */
  function RemoveFileResult(fs: Tree, sealed: set<Path>, p: Path): Option<Tree>
  {
    if p !in fs || fs[p].Dir? || !MayModify(sealed, p) then None
    else Some(fs - {p})
  }

  /** `remove_dir_all(p)`: removes a directory and everything below it. */
  function RemoveDirAllResult(fs: Tree, sealed: set<Path>, p: Path): Option<Tree>
  {
    if p !in fs || !fs[p].Dir? || exists q :: q in Subtree(fs, p) && !MayModify(sealed, q) then None
    else Some(fs - Subtree(fs, p))
  }

  /** `symlink(target, link)`: creates a link; the entry `link` must not exist yet. */
  function SymlinkResult(fs: Tree, sealed: set<Path>, target: Path, link: Path): Option<Tree>
  {
    if link in fs || !ParentIsDir(fs, link) || !MayModify(sealed, link) then None
    else Some(fs[link := Symlink(target)])
  }

  /**
   * GNU `rm -rf p`: removes `p` with everything below it; a missing `p`
   * (the empty path included) is not an error, there is nothing to remove.
   * The root is refused (`--preserve-root`, the default).
   */
  function RmRfResult(fs: Tree, sealed: set<Path>, p: Path): Option<Tree>
  {
    if p == "/" || exists q :: q in Subtree(fs, p) && !MayModify(sealed, q) then None
    else Some(fs - Subtree(fs, p))
  }

  /**
   * GNU `ln -s target link`: when `link` names a directory (following links)
   * the new link is created inside it under the last component of `target`;
   * otherwise `link` itself becomes the link.
   */
  function LnSResult(fs: Tree, sealed: set<Path>, target: Path, link: Path): Option<Tree>
  {
    if IsDir(fs, link) then SymlinkResult(fs, sealed, target, Join(link, BaseName(target)))
    else SymlinkResult(fs, sealed, target, link)
  }

  /**
   * Follows `p` through at most `hops` symbolic links to the last path
   * reached: an entry that is not a link, or a path where nothing is (the end
   * of a dangling link); `None` for too many links.
   */
  function Chase(fs: Tree, p: Path, hops: nat): (r: Option<Path>)
    ensures r.Some? && r.value in fs ==> !fs[r.value].Symlink?
    ensures p !in fs || !fs[p].Symlink? ==> r == Some(p)
    decreases hops
  {
    if p in fs && fs[p].Symlink? then
      (if hops == 0 then None else Chase(fs, TargetPath(p, fs[p].target), hops - 1))
    else Some(p)
  }

  /**
   * The entry that opening `dst` for writing, with creation, changes: the
   * regular file the links from `dst` lead to, or the missing path they end
   * at when its directory exists (the file is then created there); none for a
   * directory, a missing directory or too many links.
   */
  function WriteTarget(fs: Tree, dst: Path): Option<Path>
  {
    match Chase(fs, dst, MaxSymlinkHops)
    case None => None
    case Some(q) =>
      if q in fs then (if fs[q].File? then Some(q) else None)
      else if ParentIsDir(fs, q) then Some(q) else None
  }

  /** `fs::copy(src, dst)`: copies the regular file `src` leads to onto `dst`, creating it if need be. */
  function CopyFileResult(fs: Tree, sealed: set<Path>, src: Path, dst: Path): Option<Tree>
  {
    var w := WriteTarget(fs, dst);
    if !IsFile(fs, src) || w.None? || !MayModify(sealed, w.value) then None
    else Some(fs[w.value := fs[Resolve(fs, src, MaxSymlinkHops).value]])
  }

  /** A named path that is a regular file, or missing in an existing directory, is written where it is. */
  lemma WriteTargetInPlace(fs: Tree, t: Path)
    requires !Unnamed(t) && Parent(t) in fs && fs[Parent(t)].Dir?
    requires t in fs ==> fs[t].File?
    ensures WriteTarget(fs, t) == Some(t)
  {
    assert Chase(fs, t, MaxSymlinkHops) == Some(t);
  }

  /** Where `Chase` ends at an entry, `Resolve` ends there too, and nowhere else. */
  lemma {:induction false} ResolveIsChaseToEntry(fs: Tree, p: Path, hops: nat)
    ensures var c := Chase(fs, p, hops);
            Resolve(fs, p, hops) == if c.Some? && c.value in fs then c else None
    decreases hops
  {
    if p in fs && fs[p].Symlink? && hops > 0 {
      ResolveIsChaseToEntry(fs, TargetPath(p, fs[p].target), hops - 1);
    }
  }

  /**
   * Copying onto a link whose absolute target is missing creates the target,
   * in its existing writable directory, with the source's contents; the link
   * itself stays as it was.
   */
  lemma CopyThroughDanglingLink(fs: Tree, sealed: set<Path>, src: Path, dst: Path, target: Path)
    requires src in fs && fs[src].File?
    requires dst in fs && fs[dst] == Symlink(target) && IsAbsolute(target)
    requires target !in fs && ParentIsDir(fs, target) && MayModify(sealed, target)
    ensures CopyFileResult(fs, sealed, src, dst) == Some(fs[target := fs[src]])
    ensures CopyFileResult(fs, sealed, src, dst).value[dst] == Symlink(target)
  {
    assert Chase(fs, dst, MaxSymlinkHops) == Some(target);
  }

  /** Following more links than needed does not change where a lookup ends. */
  lemma {:induction false} ResolveMoreHops(fs: Tree, p: Path, hops: nat)
    requires Resolve(fs, p, hops).Some?
    ensures Resolve(fs, p, hops + 1) == Resolve(fs, p, hops)
    decreases hops
  {
    if fs[p].Symlink? {
      ResolveMoreHops(fs, TargetPath(p, fs[p].target), hops - 1);
    }
  }

  /** A link to a missing absolute path does not exist either. */
  lemma LinkToMissingIsMissing(fs: Tree, link: Path, target: Path)
    requires link in fs && fs[link] == Symlink(target) && IsAbsolute(target)
    requires !Exists(fs, target)
    ensures !Exists(fs, link)
  {
    if Exists(fs, link) {
      ResolveMoreHops(fs, target, MaxSymlinkHops - 1);
    }
  }

  /** What a move does: the subtree of `src` reappears under `dst`, everything else stays. */
  lemma MovedContents(fs: Tree, src: Path, dst: Path)
    requires dst != ""
    ensures forall q :: q in Subtree(fs, src) ==> Rebase(q, src, dst) in Moved(fs, src, dst) && Moved(fs, src, dst)[Rebase(q, src, dst)] == fs[q]
    ensures forall q :: !InSubtree(q, src) && !InSubtree(q, dst) ==> (q in Moved(fs, src, dst) <==> q in fs)
    ensures forall q :: !InSubtree(q, src) && !InSubtree(q, dst) && q in fs ==> Moved(fs, src, dst)[q] == fs[q]
    ensures forall q :: q in Moved(fs, src, dst) && InSubtree(q, dst) ==> exists q' :: q' in Subtree(fs, src) && q == Rebase(q', src, dst)
  {
    MovedSubtree(fs, src, dst);
    MovedElsewhere(fs, src, dst);
  }

  /** The moved subtree, keyed by its new paths. */
  lemma MovedSubtree(fs: Tree, src: Path, dst: Path)
    requires dst != ""
    ensures forall q :: q in Subtree(fs, src) ==> Rebase(q, src, dst) in Moved(fs, src, dst) && Moved(fs, src, dst)[Rebase(q, src, dst)] == fs[q]
  {
    RebaseInjective(src, dst);
    var moved := map q | q in Subtree(fs, src) :: Rebase(q, src, dst) := fs[q];
    forall q | q in Subtree(fs, src)
      ensures Rebase(q, src, dst) in moved && moved[Rebase(q, src, dst)] == fs[q]
    {
    }
  }

  /** Outside both subtrees a move changes nothing, and inside `dst` only moved paths remain. */
  lemma MovedElsewhere(fs: Tree, src: Path, dst: Path)
    requires dst != ""
    ensures forall q :: !InSubtree(q, src) && !InSubtree(q, dst) ==> (q in Moved(fs, src, dst) <==> q in fs)
    ensures forall q :: !InSubtree(q, src) && !InSubtree(q, dst) && q in fs ==> Moved(fs, src, dst)[q] == fs[q]
    ensures forall q :: q in Moved(fs, src, dst) && InSubtree(q, dst) ==> exists q' :: q' in Subtree(fs, src) && q == Rebase(q', src, dst)
  {
    RebaseInjective(src, dst);
  }

  /**
   * No call creates an entry at a path that names none (the empty path, or
   * one ending in `/`): on a tree whose entries are all named, a removal, a
   * link or a copy that succeeds leaves them all named
   * (`UnnamedNotRenamedTo` covers `rename`).
   */
  lemma UnnamedNeverCreated(fs: Tree, sealed: set<Path>, a: Path, b: Path)
    requires AllNamed(fs)
    ensures RemoveFileResult(fs, sealed, a).Some? ==> AllNamed(RemoveFileResult(fs, sealed, a).value)
    ensures RemoveDirAllResult(fs, sealed, a).Some? ==> AllNamed(RemoveDirAllResult(fs, sealed, a).value)
    ensures RmRfResult(fs, sealed, a).Some? ==> AllNamed(RmRfResult(fs, sealed, a).value)
    ensures SymlinkResult(fs, sealed, a, b).Some? ==> AllNamed(SymlinkResult(fs, sealed, a, b).value)
    ensures LnSResult(fs, sealed, a, b).Some? ==> AllNamed(LnSResult(fs, sealed, a, b).value)
    ensures CopyFileResult(fs, sealed, a, b).Some? ==> AllNamed(CopyFileResult(fs, sealed, a, b).value)
  {
    if CopyFileResult(fs, sealed, a, b).Some? {
      var w := WriteTarget(fs, b).value;
      assert w in fs || ParentIsDir(fs, w);
    }
  }

  /** A `rename` that succeeds keeps every entry named: each moved entry keeps the last character of its old path. */
  lemma UnnamedNotRenamedTo(fs: Tree, sealed: set<Path>, src: Path, dst: Path)
    requires AllNamed(fs)
    ensures RenameResult(fs, sealed, src, dst).Some? ==> AllNamed(RenameResult(fs, sealed, src, dst).value)
  {
    if RenameResult(fs, sealed, src, dst).Some? && src != dst {
      var moved := Moved(fs, src, dst);
      MovedElsewhere(fs, src, dst);
      forall q | q in moved
        ensures !Unnamed(q)
      {
        if InSubtree(q, dst) {
          var q' :| q' in Subtree(fs, src) && q == Rebase(q', src, dst);
          if q' != src {
            assert q[|q| - 1] == q'[|q'| - 1];
          }
        } else {
          assert InSubtree(q, src) || q in fs;
        }
      }
    }
  }

  /**
   * The filesystem of one run. `nodes` is the live state; `sealed` is fixed
   * for the run.
   */
  class FileSystem {
    var nodes: Tree
    const sealed: set<Path>

    constructor (nodes: Tree, sealed: set<Path>)
      ensures this.nodes == nodes && this.sealed == sealed
    {
      this.nodes := nodes;
      this.sealed := sealed;
    }

    method Rename(src: Path, dst: Path) returns (ok: bool)
      modifies this
      ensures ok == RenameResult(old(nodes), sealed, src, dst).Some?
      ensures nodes == if ok then RenameResult(old(nodes), sealed, src, dst).value else old(nodes)
    {
      var r := RenameResult(nodes, sealed, src, dst);
      ok := r.Some?;
      if ok { nodes := r.value; }
    }

    method RemoveFile(p: Path) returns (ok: bool)
      modifies this
      ensures ok == RemoveFileResult(old(nodes), sealed, p).Some?
      ensures nodes == if ok then RemoveFileResult(old(nodes), sealed, p).value else old(nodes)
    {
      var r := RemoveFileResult(nodes, sealed, p);
      ok := r.Some?;
      if ok { nodes := r.value; }
    }

    method RemoveDirAll(p: Path) returns (ok: bool)
      modifies this
      ensures ok == RemoveDirAllResult(old(nodes), sealed, p).Some?
      ensures nodes == if ok then RemoveDirAllResult(old(nodes), sealed, p).value else old(nodes)
    {
      var r := RemoveDirAllResult(nodes, sealed, p);
      ok := r.Some?;
      if ok { nodes := r.value; }
    }

    method CreateSymlink(target: Path, link: Path) returns (ok: bool)
      modifies this
      ensures ok == SymlinkResult(old(nodes), sealed, target, link).Some?
      ensures nodes == if ok then SymlinkResult(old(nodes), sealed, target, link).value else old(nodes)
    {
      var r := SymlinkResult(nodes, sealed, target, link);
      ok := r.Some?;
      if ok { nodes := r.value; }
    }

    method RmRf(p: Path) returns (ok: bool)
      modifies this
      ensures ok == RmRfResult(old(nodes), sealed, p).Some?
      ensures nodes == if ok then RmRfResult(old(nodes), sealed, p).value else old(nodes)
    {
      var r := RmRfResult(nodes, sealed, p);
      ok := r.Some?;
      if ok { nodes := r.value; }
    }

    method LnS(target: Path, link: Path) returns (ok: bool)
      modifies this
      ensures ok == LnSResult(old(nodes), sealed, target, link).Some?
      ensures nodes == if ok then LnSResult(old(nodes), sealed, target, link).value else old(nodes)
    {
      var r := LnSResult(nodes, sealed, target, link);
      ok := r.Some?;
      if ok { nodes := r.value; }
    }

    method CopyFile(src: Path, dst: Path) returns (ok: bool)
      modifies this
      ensures ok == CopyFileResult(old(nodes), sealed, src, dst).Some?
      ensures nodes == if ok then CopyFileResult(old(nodes), sealed, src, dst).value else old(nodes)
    {
      var r := CopyFileResult(nodes, sealed, src, dst);
      ok := r.Some?;
      if ok { nodes := r.value; }
    }
  }
}
