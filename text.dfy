/**
 * Text operations the two tools rely on: Rust's `str::replace` (a global,
 * left-to-right, non-overlapping replacement) and PHP's `explode`/`implode`.
 * Splitting and joining are the reference definitions; replacement is proved
 * to be "split on the pattern, join with the replacement".
 */
module Text {

  /** `pat` occurs in `s` at index `i`. */
  predicate MatchesAt(s: string, pat: string, i: nat)
  {
    i + |pat| <= |s| && s[i..i + |pat|] == pat
  }

  /** `pat` occurs somewhere in `s`. */
  predicate Contains(s: string, pat: string)
  {
    exists i: nat | i <= |s| :: MatchesAt(s, pat, i)
  }

  /** The number of occurrences of the character `c` in `s`. */
  function CountChar(c: char, s: string): nat
  {
    if s == [] then 0 else (if s[0] == c then 1 else 0) + CountChar(c, s[1..])
  }

  /** The sum of `CountChar(c, _)` over a list of strings. */
  function CountCharAll(c: char, parts: seq<string>): nat
  {
    if parts == [] then 0 else CountChar(c, parts[0]) + CountCharAll(c, parts[1..])
  }

  /**
   * PHP `explode(delim, s)` without a limit: the pieces of `s` between the
   * non-overlapping occurrences of `delim`, scanned from the left. PHP throws
   * on an empty delimiter, hence the precondition.
   */
  function Explode(delim: string, s: string): (parts: seq<string>)
    requires |delim| > 0
    ensures |parts| >= 1
    decreases |s|
  {
    if |s| < |delim| then [s]
    else if s[..|delim|] == delim then [""] + Explode(delim, s[|delim|..])
    else
      var rest := Explode(delim, s[1..]);
      [[s[0]] + rest[0]] + rest[1..]
  }

  /** PHP `implode(sep, parts)`: the parts in order, `sep` between neighbours. */
  function Implode(sep: string, parts: seq<string>): string
  {
    if |parts| == 0 then ""
    else if |parts| == 1 then parts[0]
    else parts[0] + sep + Implode(sep, parts[1..])
  }

  /** Rust `s.replace("", rep)`: `rep` before every character and at the end. */
  function InsertEverywhere(s: string, rep: string): string
  {
    if s == [] then rep else rep + [s[0]] + InsertEverywhere(s[1..], rep)
  }

  /**
   * Rust `s.replace(pat, rep)`: scans `s` from the left and replaces every
   * non-overlapping occurrence of `pat`; the inserted text is not scanned again
   * within the same call.
   */
  function ReplaceAll(s: string, pat: string, rep: string): string
    decreases |s|
  {
    if |pat| == 0 then InsertEverywhere(s, rep)
    else if |s| < |pat| then s
    else if s[..|pat|] == pat then rep + ReplaceAll(s[|pat|..], pat, rep)
    else [s[0]] + ReplaceAll(s[1..], pat, rep)
  }

  /** Prefixing the first part of a list prefixes the joined string. */
  lemma {:induction false} ImplodeExtendFirst(sep: string, a: string, x: string, rest: seq<string>)
    ensures Implode(sep, [a + x] + rest) == a + Implode(sep, [x] + rest)
  {
    if |rest| > 0 {
      assert ([a + x] + rest)[1..] == rest;
      assert ([x] + rest)[1..] == rest;
    } else {
      assert [a + x] + rest == [a + x];
      assert [x] + rest == [x];
    }
  }

  /** Joining two non-empty lists puts exactly one separator between them. */
  lemma {:induction false} ImplodeAppend(sep: string, xs: seq<string>, ys: seq<string>)
    requires |xs| > 0 && |ys| > 0
    ensures Implode(sep, xs + ys) == Implode(sep, xs) + sep + Implode(sep, ys)
  {
    if |xs| == 1 {
      assert (xs + ys)[1..] == ys;
    } else {
      assert (xs + ys)[1..] == xs[1..] + ys;
      ImplodeAppend(sep, xs[1..], ys);
    }
  }

  /** A string in which `pat` does not occur is left unchanged by `ReplaceAll`. */
  lemma {:induction false} ReplaceAllWithoutMatch(s: string, pat: string, rep: string)
    requires |pat| > 0 && !Contains(s, pat)
    ensures ReplaceAll(s, pat, rep) == s
    decreases |s|
  {
    if |s| >= |pat| {
      assert !MatchesAt(s, pat, 0);
      assert s[..|pat|] != pat;
      forall i: nat ensures !MatchesAt(s[1..], pat, i) {
        if MatchesAt(s[1..], pat, i) {
          assert s[1..][i..i + |pat|] == s[i + 1..i + 1 + |pat|];
          assert MatchesAt(s, pat, i + 1);
        }
      }
      ReplaceAllWithoutMatch(s[1..], pat, rep);
      assert [s[0]] + s[1..] == s;
    }
  }

  /**
   * Replacement is splitting on the pattern and joining with the replacement:
   * the scan of `ReplaceAll` agrees with the reference `Implode`/`Explode`.
   */
  lemma {:induction false} ReplaceAllIsImplodeExplode(s: string, pat: string, rep: string)
    requires |pat| > 0
    ensures ReplaceAll(s, pat, rep) == Implode(rep, Explode(pat, s))
    decreases |s|
  {
    if |s| < |pat| {
    } else if s[..|pat|] == pat {
      var rest := Explode(pat, s[|pat|..]);
      ReplaceAllIsImplodeExplode(s[|pat|..], pat, rep);
      assert ([""] + rest)[1..] == rest;
    } else {
      var rest := Explode(pat, s[1..]);
      ReplaceAllIsImplodeExplode(s[1..], pat, rep);
      assert rest == [rest[0]] + rest[1..];
      ImplodeExtendFirst(rep, [s[0]], rest[0], rest[1..]);
    }
  }

  /** Replacing a pattern by itself changes nothing. */
  lemma {:induction false} ReplaceAllBySelf(s: string, pat: string)
    requires |pat| > 0
    ensures ReplaceAll(s, pat, pat) == s
    decreases |s|
  {
    if |s| < |pat| {
    } else if s[..|pat|] == pat {
      ReplaceAllBySelf(s[|pat|..], pat);
      assert s[..|pat|] + s[|pat|..] == s;
    } else {
      ReplaceAllBySelf(s[1..], pat);
      assert [s[0]] + s[1..] == s;
    }
  }

  /** Splitting on a delimiter and joining with the same delimiter is the identity. */
  lemma ImplodeExplode(delim: string, s: string)
    requires |delim| > 0
    ensures Implode(delim, Explode(delim, s)) == s
  {
    ReplaceAllIsImplodeExplode(s, delim, delim);
    ReplaceAllBySelf(s, delim);
  }

  /** A one-character delimiter between two strings splits them independently. */
  lemma {:induction false} ExplodeAround(c: char, a: string, b: string)
    ensures Explode([c], a + [c] + b) == Explode([c], a) + Explode([c], b)
    decreases |a|, 1
  {
    if a == [] {
      assert a + [c] + b == [c] + b;
      ExplodeDelimFirst(c, b);
    } else {
      assert a + [c] + b == [a[0]] + (a[1..] + [c] + b);
      assert a == [a[0]] + a[1..];
      if a[0] == c {
        ExplodeAroundDelimFirst(c, a[1..], b);
      } else {
        ExplodeAroundOtherFirst(c, a[0], a[1..], b);
      }
    }
  }

  /** `ExplodeAround` for a string that starts with the delimiter. */
  lemma {:induction false} ExplodeAroundDelimFirst(c: char, a: string, b: string)
    ensures Explode([c], [c] + (a + [c] + b)) == Explode([c], [c] + a) + Explode([c], b)
    decreases |a| + 1, 0
  {
    ExplodeAround(c, a, b);
    ExplodeDelimFirst(c, a + [c] + b);
    ExplodeDelimFirst(c, a);
  }

  /** `ExplodeAround` for a string that starts with another character `x`. */
  lemma {:induction false} ExplodeAroundOtherFirst(c: char, x: char, a: string, b: string)
    requires x != c
    ensures Explode([c], [x] + (a + [c] + b)) == Explode([c], [x] + a) + Explode([c], b)
    decreases |a| + 1, 0
  {
    ExplodeAround(c, a, b);
    ExplodeOtherFirst(c, x, a + [c] + b);
    ExplodeOtherFirst(c, x, a);
    ExtendFirstPart([x], Explode([c], a), Explode([c], b));
  }

  /** Prefixing the first part of `ea + eb` is prefixing the first part of `ea`. */
  lemma ExtendFirstPart(p: string, ea: seq<string>, eb: seq<string>)
    requires |ea| >= 1
    ensures [p + (ea + eb)[0]] + (ea + eb)[1..] == ([p + ea[0]] + ea[1..]) + eb
  {
    assert (ea + eb)[1..] == ea[1..] + eb;
  }

  /** A leading delimiter ends an empty first part. */
  lemma ExplodeDelimFirst(c: char, t: string)
    ensures Explode([c], [c] + t) == [""] + Explode([c], t)
  {
    var s := [c] + t;
    assert s[..1] == [c] && s[1..] == t;
  }

  /** Any other leading character starts the first part. */
  lemma ExplodeOtherFirst(c: char, x: char, t: string)
    requires x != c
    ensures Explode([c], [x] + t) == [[x] + Explode([c], t)[0]] + Explode([c], t)[1..]
  {
    var s := [x] + t;
    assert s[..1] != [c] && s[1..] == t;
  }

  /** The occurrences of a character in a concatenation add up. */
  lemma {:induction false} CountCharAppend(c: char, a: string, b: string)
    ensures CountChar(c, a + b) == CountChar(c, a) + CountChar(c, b)
    decreases |a|
  {
    if a != [] {
      assert (a + b)[1..] == a[1..] + b;
      CountCharAppend(c, a[1..], b);
    } else {
      assert a + b == b;
    }
  }

  /**
   * Joining `n >= 1` parts with a one-character separator adds exactly
   * `n - 1` occurrences of that character to those already in the parts.
   */
  lemma {:induction false} ImplodeSeparatorCount(c: char, parts: seq<string>)
    requires |parts| >= 1
    ensures CountChar(c, Implode([c], parts)) == CountCharAll(c, parts) + |parts| - 1
    decreases |parts|
  {
    if |parts| > 1 {
      ImplodeSeparatorCount(c, parts[1..]);
      CountCharAppend(c, parts[0] + [c], Implode([c], parts[1..]));
      CountCharAppend(c, parts[0], [c]);
      assert CountChar(c, [c]) == 1;
    } else {
      assert parts[1..] == [];
    }
  }

  /** Without an occurrence of `pat` at the front, the first character is copied and the scan moves on by one. */
  lemma ReplaceAllNoMatchStep(s: string, pat: string, rep: string)
    requires |pat| > 0 && s != [] && !MatchesAt(s, pat, 0)
    ensures ReplaceAll(s, pat, rep) == [s[0]] + ReplaceAll(s[1..], pat, rep)
  {
    if |s| < |pat| {
      assert ReplaceAll(s[1..], pat, rep) == s[1..];
      assert [s[0]] + s[1..] == s;
    }
  }

  /** A prefix that never holds the first character of `pat` is copied through unchanged. */
  lemma {:induction false} ReplaceAllSkipsPrefix(p: string, t: string, pat: string, rep: string)
    requires |pat| > 0 && forall i :: 0 <= i < |p| ==> p[i] != pat[0]
    ensures ReplaceAll(p + t, pat, rep) == p + ReplaceAll(t, pat, rep)
    decreases |p|
  {
    if p == [] {
      assert p + t == t;
    } else {
      var q := p + t;
      assert !MatchesAt(q, pat, 0) by {
        if |pat| <= |q| {
          assert q[0..|pat|][0] == p[0];
        }
      }
      ReplaceAllNoMatchStep(q, pat, rep);
      assert q[1..] == p[1..] + t;
      ReplaceAllSkipsPrefix(p[1..], t, pat, rep);
      var r := ReplaceAll(t, pat, rep);
      assert [p[0]] + (p[1..] + r) == p + r;
    }
  }

  /** A string without the first character of `pat` does not contain `pat`. */
  lemma NoMatchWithoutFirstChar(s: string, pat: string)
    requires |pat| > 0 && forall i :: 0 <= i < |s| ==> s[i] != pat[0]
    ensures !Contains(s, pat)
  {
    forall i: nat | i <= |s| ensures !MatchesAt(s, pat, i) {
      if i + |pat| <= |s| {
        assert s[i..i + |pat|][0] != pat[0];
      }
    }
  }

  /** A string in which the first two characters of `pat` never appear in a row does not contain `pat`. */
  lemma NoMatchWithoutFirstPair(s: string, pat: string)
    requires |pat| >= 2
    requires forall i :: 0 <= i < |s| - 1 ==> !(s[i] == pat[0] && s[i + 1] == pat[1])
    ensures !Contains(s, pat)
  {
    forall i: nat | i <= |s| ensures !MatchesAt(s, pat, i) {
      if i + |pat| <= |s| {
        var w := s[i..i + |pat|];
        assert w[0] == s[i] && w[1] == s[i + 1];
        assert w[0] != pat[0] || w[1] != pat[1];
      }
    }
  }

  /** An occurrence of `pat` at the front is replaced, and the scan goes on after it. */
  lemma ReplaceAllAtMatch(pat: string, t: string, rep: string)
    requires |pat| > 0
    ensures ReplaceAll(pat + t, pat, rep) == rep + ReplaceAll(t, pat, rep)
  {
    assert (pat + t)[..|pat|] == pat && (pat + t)[|pat|..] == t;
  }
}
