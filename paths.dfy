/**
 * Path strings as the tools build them: `Path::join`, the parent directory,
 * the last component (`file_name`, `basename`), and "is inside the subtree of".
 * Paths are compared as text; no normalisation of `.`, `..` or repeated
 * separators takes place.
 */
module Paths {

  type Path = string

  predicate IsAbsolute(p: Path)
  {
    |p| > 0 && p[0] == '/'
  }

  /** No `/` in `s`. */
  predicate NoSlash(s: string)
  {
    forall i :: 0 <= i < |s| ==> s[i] != '/'
  }

  /**
   * Rust `base.join(rel)`: an absolute `rel` replaces `base`; otherwise `rel` is
   * appended with one separator, unless `base` is empty or already ends in one.
   */
  function Join(base: Path, rel: Path): (r: Path)
    ensures IsAbsolute(rel) ==> r == rel
    ensures IsAbsolute(base) ==> IsAbsolute(r)
    ensures |rel| <= |r| && r[|r| - |rel|..] == rel
  {
    if IsAbsolute(rel) then rel
    else if base == "" || base[|base| - 1] == '/' then base + rel
    else base + "/" + rel
  }

  /** The index of the last `/` in `p`, or -1 when there is none. */
  function LastSlash(p: Path): (i: int)
    ensures -1 <= i < |p|
    ensures i >= 0 ==> p[i] == '/'
    ensures forall j :: i < j < |p| ==> p[j] != '/'
    decreases |p|
  {
    if p == "" then -1
    else if p[|p| - 1] == '/' then |p| - 1
    else LastSlash(p[..|p| - 1])
  }

  /**
   * The directory that holds `p`: the text before its last `/`, with "/" for an
   * entry of the root and "" for a bare name (an entry of the working directory).
   */
  function Parent(p: Path): Path
  {
    var i := LastSlash(p);
    if i < 0 then "" else if i == 0 then "/" else p[..i]
  }

  /** Rust `file_name`: the text after the last `/`. */
  function Name(p: Path): (r: Path)
    ensures NoSlash(r)
  {
    p[LastSlash(p) + 1..]
  }

  /** `p` ends in a `/` that is not the whole path. */
  predicate EndsInSlash(p: Path)
  {
    |p| > 1 && p[|p| - 1] == '/'
  }

  /** `p` without its trailing slashes; a path of slashes only keeps the first. */
  function StripSlashes(p: Path): (r: Path)
    ensures !EndsInSlash(r)
    ensures |r| <= |p| && r == p[..|r|]
    ensures forall i :: |r| <= i < |p| ==> p[i] == '/'
    ensures (r == "") == (p == "")
    decreases |p|
  {
    if EndsInSlash(p) then StripSlashes(p[..|p| - 1]) else p
  }

  /** The last component as `basename` and `ln` take it: trailing slashes are ignored. */
  function BaseName(p: Path): (r: Path)
    ensures NoSlash(r)
    ensures !EndsInSlash(p) ==> r == Name(p)
  {
    Name(StripSlashes(p))
  }

  /** Adding trailing slashes does not change the last component. */
  lemma {:induction false} BaseNameIgnoresTrailingSlash(p: Path)
    requires p != ""
    ensures BaseName(p + "/") == BaseName(p)
  {
    assert (p + "/")[..|p + "/"| - 1] == p;
  }

  /** `q` is `p` itself or lies below the directory `p`; nothing lies below the empty path, which names no entry. */
  predicate InSubtree(q: Path, p: Path)
  {
    q == p || (0 < |p| < |q| && q[..|p|] == p && q[|p|] == '/')
  }

  /** The path that `q`, inside the subtree of `src`, has once `src` is moved to `dst`. */
  function Rebase(q: Path, src: Path, dst: Path): (r: Path)
    requires InSubtree(q, src) && dst != ""
    ensures InSubtree(r, dst)
    ensures q == src ==> r == dst
  {
    dst + q[|src|..]
  }

  /** Moving a subtree sends distinct paths to distinct paths. */
  lemma RebaseInjective(src: Path, dst: Path)
    requires dst != ""
    ensures forall q1, q2 :: InSubtree(q1, src) && InSubtree(q2, src) && Rebase(q1, src, dst) == Rebase(q2, src, dst) ==> q1 == q2
  {
    forall q1, q2 | InSubtree(q1, src) && InSubtree(q2, src) && Rebase(q1, src, dst) == Rebase(q2, src, dst)
      ensures q1 == q2
    {
      var r := Rebase(q1, src, dst);
      assert q1[|src|..] == r[|dst|..] == q2[|src|..];
      assert q1 == q1[..|src|] + q1[|src|..];
      assert q2 == q2[..|src|] + q2[|src|..];
    }
  }

  /** Joining a non-empty name gives a path that does not end in `/`. */
  lemma JoinNameEndsInName(dir: Path, name: Path)
    requires |name| > 0 && NoSlash(name)
    ensures Join(dir, name) != "" && !EndsInSlash(Join(dir, name))
  {
    var p := Join(dir, name);
    assert p[|p| - 1] == p[|p| - |name|..][|name| - 1] == name[|name| - 1];
  }

  /**
   * Joining a directory and a single name, then taking the result apart,
   * gives back the directory and the name.
   */
  lemma JoinSplits(dir: Path, name: Path)
    requires IsAbsolute(dir) && (dir == "/" || dir[|dir| - 1] != '/')
    requires |name| > 0 && NoSlash(name)
    ensures Parent(Join(dir, name)) == dir
    ensures Name(Join(dir, name)) == name
    ensures Join(dir, name) != dir
  {
    var p := Join(dir, name);
    var k := |p| - |name| - 1;
    assert p[k] == '/';
    assert p[..k] == dir || (dir == "/" && k == 0);
    assert forall j :: k < j < |p| ==> p[j] == name[j - k - 1];
    var i := LastSlash(p);
    assert i == k;
  }
}
