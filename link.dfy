/**
 * `dot_link`: makes the destination a symbolic link to the repository copy.
 * The decision looks at the destination's state: nothing on either side, a
 * source not yet in the repository (the destination is moved in), a
 * destination already linked to the source, or anything else (removed and
 * replaced by a link).
 */
module Link {
  import opened Wrappers
  import opened Paths
  import opened FileSystemModel

  datatype LinkOutcome =
    | NoDestination   // the mapping resolved to "": not reconciled on this platform
    | NothingToLink   // neither the source nor the destination exists
    | MoveFailed      // the destination could not be moved into the repository
    | AlreadyLinked   // the destination is already a link to the source
    | Panicked        // the old destination could not be removed: the run aborts
    | LinkFailed      // the link could not be created
    | Linked

  datatype LinkStep = LinkStep(outcome: LinkOutcome, after: Tree)

  /** Lines 114-147: skip a correct link, remove anything else at `to`, then link. */
  function ReplaceWithLink(fs: Tree, sealed: set<Path>, fromAbs: Path, to: Path): LinkStep
  {
    if to in fs && fs[to] == Symlink(fromAbs) then LinkStep(AlreadyLinked, fs)
    else
      var cleared :=
        if to !in fs then Some(fs)
        else if fs[to].Dir? then RemoveDirAllResult(fs, sealed, to)
        else RemoveFileResult(fs, sealed, to);
      if cleared.None? then LinkStep(Panicked, fs)
      else match SymlinkResult(cleared.value, sealed, fromAbs, to)
        case None => LinkStep(LinkFailed, cleared.value)
        case Some(linked) => LinkStep(Linked, linked)
  }

  /** What one `dot_link` call does to the filesystem `fs`, with `fromAbs` the source's absolute path. */
  function LinkSpec(fs: Tree, sealed: set<Path>, fromAbs: Path, to: Path): (r: LinkStep)
    ensures r.outcome != NoDestination
  {
    if !Exists(fs, fromAbs) && !Exists(fs, to) then LinkStep(NothingToLink, fs)
    else if !Exists(fs, fromAbs) then
      match RenameResult(fs, sealed, to, fromAbs)
      case None => LinkStep(MoveFailed, fs)
      case Some(moved) => ReplaceWithLink(moved, sealed, fromAbs, to)
    else ReplaceWithLink(fs, sealed, fromAbs, to)
  }

  /** `dot_link(from, to)` with the working directory `cwd`. */
  method DotLink(fs: FileSystem, cwd: Path, from: Path, to: Path) returns (outcome: LinkOutcome)
    modifies fs
    ensures LinkStep(outcome, fs.nodes) == LinkSpec(old(fs.nodes), fs.sealed, Join(cwd, from), to)
  {
    var fromAbs := Join(cwd, from);
    if !Exists(fs.nodes, fromAbs) && !Exists(fs.nodes, to) {
      return NothingToLink;
    }
    if !Exists(fs.nodes, fromAbs) {
      var moved := fs.Rename(to, fromAbs);
      if !moved {
        return MoveFailed;
      }
    }
    if to in fs.nodes {
      var node := fs.nodes[to];
      if node.Symlink? && node.target == fromAbs {
        return AlreadyLinked;
      }
      var removed;
      if node.Dir? {
        removed := fs.RemoveDirAll(to);
      } else {
        removed := fs.RemoveFile(to);
      }
      if !removed {
        return Panicked;
      }
    }
    var linked := fs.CreateSymlink(fromAbs, to);
    outcome := if linked then Linked else LinkFailed;
  }

  /** With neither side present (following links), nothing changes. */
  lemma NothingToLinkNoChange(fs: Tree, sealed: set<Path>, fromAbs: Path, to: Path)
    requires !Exists(fs, fromAbs) && !Exists(fs, to)
    ensures LinkSpec(fs, sealed, fromAbs, to) == LinkStep(NothingToLink, fs)
  {
  }

  /**
   * `symlink` refuses the empty path and a path ending in `/`, so a
   * destination written that way is never linked.
   */
  lemma UnnamedDestinationNeverLinked(fs: Tree, sealed: set<Path>, fromAbs: Path, to: Path)
    requires Unnamed(to)
    ensures LinkSpec(fs, sealed, fromAbs, to).outcome != Linked
  {
    if Exists(fs, fromAbs) {
      ReplaceNeverLinksUnnamed(fs, sealed, fromAbs, to);
    } else if Exists(fs, to) {
      var moved := RenameResult(fs, sealed, to, fromAbs);
      if moved.Some? {
        ReplaceNeverLinksUnnamed(moved.value, sealed, fromAbs, to);
      }
    }
  }

  lemma ReplaceNeverLinksUnnamed(fs: Tree, sealed: set<Path>, fromAbs: Path, to: Path)
    requires Unnamed(to)
    ensures ReplaceWithLink(fs, sealed, fromAbs, to).outcome != Linked
  {
    forall t: Tree ensures SymlinkResult(t, sealed, fromAbs, to).None? {
      assert !ParentIsDir(t, to);
    }
  }

  /** A state where `to` links to `fromAbs` is left alone. */
  lemma {:induction false} LinkedStateIsStable(fs: Tree, sealed: set<Path>, fromAbs: Path, to: Path)
    requires IsAbsolute(fromAbs)
    requires to in fs && fs[to] == Symlink(fromAbs)
    ensures LinkSpec(fs, sealed, fromAbs, to).after == fs
    ensures LinkSpec(fs, sealed, fromAbs, to).outcome == if Exists(fs, fromAbs) then AlreadyLinked else NothingToLink
  {
    if !Exists(fs, fromAbs) {
      LinkToMissingIsMissing(fs, to, fromAbs);
    }
  }

  /** A state where `to` is absent and cannot be linked is left alone. */
  lemma UnlinkableStateIsStable(fs: Tree, sealed: set<Path>, fromAbs: Path, to: Path)
    requires to !in fs && SymlinkResult(fs, sealed, fromAbs, to).None?
    ensures LinkSpec(fs, sealed, fromAbs, to).after == fs
  {
  }

  /**
   * Idempotence: a second `dot_link` on the same pair changes nothing; after
   * a successful link it reports the link as already there (or, when the
   * source has meanwhile vanished, that there is nothing to link).
   */
  lemma {:induction false} DotLinkIdempotent(fs: Tree, sealed: set<Path>, fromAbs: Path, to: Path)
    requires IsAbsolute(fromAbs)
    ensures var first := LinkSpec(fs, sealed, fromAbs, to);
            var second := LinkSpec(first.after, sealed, fromAbs, to);
            && second.after == first.after
            && (first.outcome == Linked ==> second.outcome in {AlreadyLinked, NothingToLink})
            && (first.outcome == Linked && Exists(first.after, fromAbs) ==> second.outcome == AlreadyLinked)
  {
    var first := LinkSpec(fs, sealed, fromAbs, to);
    if first.outcome == Linked {
      LinkedLeavesLink(fs, sealed, fromAbs, to);
      LinkedStateIsStable(first.after, sealed, fromAbs, to);
    } else if first.outcome == LinkFailed {
      LinkFailedIsStable(fs, sealed, fromAbs, to);
    } else {
      OnlyLinkingChanges(fs, sealed, fromAbs, to);
    }
  }

  /** A successful call leaves `to` linked to the source. */
  lemma LinkedLeavesLink(fs: Tree, sealed: set<Path>, fromAbs: Path, to: Path)
    requires LinkSpec(fs, sealed, fromAbs, to).outcome == Linked
    ensures var after := LinkSpec(fs, sealed, fromAbs, to).after;
            to in after && after[to] == Symlink(fromAbs)
  {
    if !Exists(fs, fromAbs) {
      var moved := RenameResult(fs, sealed, to, fromAbs);
      assert moved.Some? && LinkSpec(fs, sealed, fromAbs, to) == ReplaceWithLink(moved.value, sealed, fromAbs, to);
      ReplaceLeavesLink(moved.value, sealed, fromAbs, to);
    } else {
      ReplaceLeavesLink(fs, sealed, fromAbs, to);
    }
  }

  /** The replacing half of `dot_link`, when it succeeds, leaves `to` linked to the source. */
  lemma ReplaceLeavesLink(fs: Tree, sealed: set<Path>, fromAbs: Path, to: Path)
    requires ReplaceWithLink(fs, sealed, fromAbs, to).outcome == Linked
    ensures var after := ReplaceWithLink(fs, sealed, fromAbs, to).after;
            to in after && after[to] == Symlink(fromAbs)
  {
  }

  /** A call that neither links nor fails to link after clearing `to` leaves the filesystem as it was. */
  lemma OnlyLinkingChanges(fs: Tree, sealed: set<Path>, fromAbs: Path, to: Path)
    requires LinkSpec(fs, sealed, fromAbs, to).outcome !in {Linked, LinkFailed}
    ensures LinkSpec(fs, sealed, fromAbs, to).after == fs
  {
  }

  /** After a failed link `to` is absent and still cannot be linked, so a second call changes nothing. */
  lemma LinkFailedIsStable(fs: Tree, sealed: set<Path>, fromAbs: Path, to: Path)
    requires LinkSpec(fs, sealed, fromAbs, to).outcome == LinkFailed
    ensures var after := LinkSpec(fs, sealed, fromAbs, to).after;
            LinkSpec(after, sealed, fromAbs, to).after == after
  {
    var first := LinkSpec(fs, sealed, fromAbs, to);
    var moved := if Exists(fs, fromAbs) then fs else RenameResult(fs, sealed, to, fromAbs).value;
    if !Exists(fs, fromAbs) {
      MovedContents(fs, to, fromAbs);
      assert to !in moved;
    }
    assert first == ReplaceWithLink(moved, sealed, fromAbs, to);
    assert to !in first.after;
    UnlinkableStateIsStable(first.after, sealed, fromAbs, to);
  }

  /**
   * First run on a live configuration: with the source missing and the
   * destination present, the destination's whole subtree is moved to the
   * source path and the destination becomes a link to it. If the move fails
   * nothing is removed or linked; if only the link fails the moved data stays
   * at the source. Nothing outside the two subtrees changes.
   */
  lemma {:induction false} FirstRunMovesDestinationIntoSource(fs: Tree, sealed: set<Path>, fromAbs: Path, to: Path)
    requires !Exists(fs, fromAbs) && Exists(fs, to)
    ensures var r := LinkSpec(fs, sealed, fromAbs, to);
            && r.outcome in {MoveFailed, Linked, LinkFailed}
            && (r.outcome == MoveFailed <==> RenameResult(fs, sealed, to, fromAbs).None?)
            && (r.outcome == MoveFailed ==> r.after == fs)
            && (r.outcome != MoveFailed ==>
                  && (forall q :: q in Subtree(fs, to) ==> Rebase(q, to, fromAbs) in r.after && r.after[Rebase(q, to, fromAbs)] == fs[q])
                  && (forall q :: q in r.after && InSubtree(q, fromAbs) ==> exists q' :: q' in Subtree(fs, to) && q == Rebase(q', to, fromAbs))
                  && (forall q :: !InSubtree(q, to) && !InSubtree(q, fromAbs) ==> (q in r.after <==> q in fs) && (q in fs ==> r.after[q] == fs[q])))
            && (r.outcome == Linked ==> r.after[to] == Symlink(fromAbs))
  {
    var r := LinkSpec(fs, sealed, fromAbs, to);
    var m := RenameResult(fs, sealed, to, fromAbs);
    if m.Some? {
      var moved := m.value;
      assert to in fs;
      assert to != fromAbs;
      MovedContents(fs, to, fromAbs);
      assert moved == Moved(fs, to, fromAbs);
      assert to !in moved;
      assert r == ReplaceWithLink(moved, sealed, fromAbs, to);
      assert r.after == moved || r.after == moved[to := Symlink(fromAbs)];
      forall q | q in Subtree(fs, to)
        ensures Rebase(q, to, fromAbs) in r.after && r.after[Rebase(q, to, fromAbs)] == fs[q]
      {
        assert InSubtree(Rebase(q, to, fromAbs), fromAbs);
        assert Rebase(q, to, fromAbs) != to;
      }
    }
  }

  /**
   * Overwrite: with the source present and `to` anything but a link to it,
   * `to` is removed (a directory with its whole subtree) and replaced by a
   * link. The run aborts exactly when the removal is refused. Nothing outside
   * `to`'s subtree changes.
   */
  lemma {:induction false} OverwriteReplacesDestination(fs: Tree, sealed: set<Path>, fromAbs: Path, to: Path)
    requires Exists(fs, fromAbs)
    requires !(to in fs && fs[to] == Symlink(fromAbs))
    ensures var r := LinkSpec(fs, sealed, fromAbs, to);
            && r.outcome in {Panicked, LinkFailed, Linked}
            && (r.outcome == Panicked <==> to in fs && (if fs[to].Dir? then RemoveDirAllResult(fs, sealed, to) else RemoveFileResult(fs, sealed, to)).None?)
            && (r.outcome == Panicked ==> r.after == fs)
            && (forall q :: !InSubtree(q, to) ==> (q in r.after <==> q in fs) && (q in fs ==> r.after[q] == fs[q]))
            && (r.outcome == Linked ==> r.after[to] == Symlink(fromAbs))
            && (r.outcome != Panicked && to in fs && fs[to].Dir? ==> forall q :: q in r.after && InSubtree(q, to) ==> q == to)
  {
  }
}
