/**
 * The two reconciliation loops of `main`: every symlink mapping is resolved
 * and handed to `dot_link`, then every copy mapping is resolved and handed to
 * `copy`. A mapping whose destination resolves to the empty string is skipped.
 * A panic inside a turn (a destination that cannot be removed, a copy source
 * that does not exist) ends the whole run there.
 */
module Driver {
  import opened Paths
  import opened FileSystemModel
  import opened Resolver
  import opened Link
  import opened Copy
  import opened Passes

  type LinkRun = Run<Tree, LinkOutcome>
  type CopyRun = Run<Tree, CopyOutcome>

  /** A copy mapping together with the order in which its source directory was read (empty when none was). */
  type CopyVisit = (Location, seq<Path>)

  /** What the symlink loop (lines 203-210) does with the mapping `m` on the filesystem `fs`. */
  function LinkTurn(fs: Tree, sealed: set<Path>, cwd: Path, env: Env, m: Location): LinkStep
  {
    var to := FormatLocation(m, env);
    if to == "" then LinkStep(LinkOutcome.NoDestination, fs) else LinkSpec(fs, sealed, Join(cwd, m.from), to)
  }

  /** `LinkTurn` as the turn of a pass. */
  function LinkTurns(sealed: set<Path>, cwd: Path, env: Env): (Tree, Location) -> (LinkOutcome, Tree)
  {
    (fs, m) => var step := LinkTurn(fs, sealed, cwd, env, m); (step.outcome, step.after)
  }

  /** The symlink loop over `ms`, from the filesystem `fs`. */
  function LinkAllSpec(fs: Tree, sealed: set<Path>, cwd: Path, env: Env, ms: seq<Location>): LinkRun
  {
    Pass(fs, ms, LinkTurns(sealed, cwd, env), Panicked)
  }

  /** What the copy loop (lines 212-219) does with the mapping `m` on `fs`, reading a source directory in the order `listing`. */
  function CopyTurn(fs: Tree, sealed: set<Path>, cwd: Path, env: Env, m: Location, listing: seq<Path>): CopyStep
  {
    var to := FormatLocation(m, env);
    if to == "" then CopyStep(CopyOutcome.NoDestination, fs) else CopySpec(fs, sealed, Join(cwd, m.from), to, listing)
  }

  /** `CopyTurn` as the turn of a pass. */
  function CopyTurns(sealed: set<Path>, cwd: Path, env: Env): (Tree, CopyVisit) -> (CopyOutcome, Tree)
  {
    (fs, v: CopyVisit) => var step := CopyTurn(fs, sealed, cwd, env, v.0, v.1); (step.outcome, step.after)
  }

  /** Each mapping paired with its listing. */
  function Visits(ms: seq<Location>, listings: seq<seq<Path>>): (vs: seq<CopyVisit>)
    requires |listings| == |ms|
    ensures |vs| == |ms| && forall i :: 0 <= i < |ms| ==> vs[i] == (ms[i], listings[i])
  {
    seq(|ms|, i requires 0 <= i < |ms| => (ms[i], listings[i]))
  }

  /** The copy loop over `ms` from the filesystem `fs`, `listings[i]` being the order in which the turn for `ms[i]` reads its source. */
  function CopyAllSpec(fs: Tree, sealed: set<Path>, cwd: Path, env: Env, ms: seq<Location>, listings: seq<seq<Path>>): CopyRun
    requires |listings| == |ms|
  {
    Pass(fs, Visits(ms, listings), CopyTurns(sealed, cwd, env), SourceMissing)
  }

  /** `listing` is the order in which the turn for `m` on `fs` reads its source directory, and is empty when it reads none. */
  ghost predicate ListingFits(fs: Tree, cwd: Path, env: Env, m: Location, listing: seq<Path>)
  {
    var src := Join(cwd, m.from);
    if FormatLocation(m, env) != "" && src in fs && fs[src].Dir? then IsListing(fs, src, listing) else listing == []
  }

  /** Each listing fits its turn, on the filesystem as it stood when that turn came. */
  ghost predicate ListingsFit(fs: Tree, sealed: set<Path>, cwd: Path, env: Env, ms: seq<Location>, listings: seq<seq<Path>>)
    requires |listings| == |ms|
  {
    TurnsFit(fs, Visits(ms, listings), CopyTurns(sealed, cwd, env), SourceMissing,
             (t, v: CopyVisit) => ListingFits(t, cwd, env, v.0, v.1))
  }

  /** One turn of the symlink loop: resolves the destination of `m` and, unless it is empty, calls `dot_link`. */
  method LinkMapping(fs: FileSystem, cwd: Path, env: Env, m: Location) returns (outcome: LinkOutcome)
    modifies fs
    ensures LinkStep(outcome, fs.nodes) == LinkTurn(old(fs.nodes), fs.sealed, cwd, env, m)
  {
    var to := FormatLocation(m, env);
    if to == "" {
      outcome := LinkOutcome.NoDestination;
    } else {
      outcome := DotLink(fs, cwd, m.from, to);
    }
  }

  /** The symlink loop of `main`: returns the outcome of each mapping visited. */
  method LinkAll(fs: FileSystem, cwd: Path, env: Env, ms: seq<Location>) returns (outcomes: seq<LinkOutcome>)
    modifies fs
    ensures Run(outcomes, fs.nodes) == LinkAllSpec(old(fs.nodes), fs.sealed, cwd, env, ms)
  {
    ghost var turns := LinkTurns(fs.sealed, cwd, env);
    outcomes := [];
    var i := 0;
    while i < |ms| && !Aborted(Run(outcomes, fs.nodes), Panicked)
      invariant 0 <= i <= |ms|
      invariant Pass(old(fs.nodes), ms[..i], turns, Panicked) == Run(outcomes, fs.nodes)
    {
      ghost var prev := Run(outcomes, fs.nodes);
      var outcome := LinkMapping(fs, cwd, env, ms[i]);
      PassStep(old(fs.nodes), ms, i, turns, Panicked, prev, outcome, fs.nodes);
      outcomes := outcomes + [outcome];
      i := i + 1;
    }
    PassDone(old(fs.nodes), ms, i, turns, Panicked, Run(outcomes, fs.nodes));
  }

  /** One turn of the copy loop: resolves the destination of `m` and, unless it is empty, calls `copy`. */
  method CopyMapping(fs: FileSystem, cwd: Path, env: Env, m: Location) returns (outcome: CopyOutcome, listing: seq<Path>)
    modifies fs
    ensures ListingFits(old(fs.nodes), cwd, env, m, listing)
    ensures CopyStep(outcome, fs.nodes) == CopyTurn(old(fs.nodes), fs.sealed, cwd, env, m, listing)
  {
    var to := FormatLocation(m, env);
    if to == "" {
      outcome, listing := CopyOutcome.NoDestination, [];
    } else {
      outcome, listing := CopyPath(fs, cwd, m.from, to);
    }
  }

  /**
   * The copy loop of `main`: returns the outcome of each mapping visited and
   * the directory listings it read. The mappings visited are all of them, or
   * a prefix ending in a missing source.
   */
  method CopyAll(fs: FileSystem, cwd: Path, env: Env, ms: seq<Location>) returns (outcomes: seq<CopyOutcome>, listings: seq<seq<Path>>)
    modifies fs
    ensures |listings| == |outcomes| <= |ms|
    ensures |outcomes| < |ms| ==> Aborted(Run(outcomes, fs.nodes), SourceMissing)
    ensures ListingsFit(old(fs.nodes), fs.sealed, cwd, env, ms[..|outcomes|], listings)
    ensures Run(outcomes, fs.nodes) == CopyAllSpec(old(fs.nodes), fs.sealed, cwd, env, ms[..|outcomes|], listings)
  {
    ghost var turns := CopyTurns(fs.sealed, cwd, env);
    ghost var fits := (t, v: CopyVisit) => ListingFits(t, cwd, env, v.0, v.1);
    outcomes := [];
    listings := [];
    var i := 0;
    while i < |ms| && !Aborted(Run(outcomes, fs.nodes), SourceMissing)
      invariant 0 <= i <= |ms| && |listings| == |outcomes| == i
      invariant TurnsFit(old(fs.nodes), Visits(ms[..i], listings), turns, SourceMissing, fits)
      invariant Pass(old(fs.nodes), Visits(ms[..i], listings), turns, SourceMissing) == Run(outcomes, fs.nodes)
    {
      ghost var prev := Run(outcomes, fs.nodes);
      ghost var vs := Visits(ms[..i], listings);
      var outcome, listing := CopyMapping(fs, cwd, env, ms[i]);
      VisitsSnoc(ms, listings, i, listing);
      TurnsFitExtend(old(fs.nodes), vs, (ms[i], listing), turns, SourceMissing, fits, prev);
      PassExtend(old(fs.nodes), vs, (ms[i], listing), turns, SourceMissing, prev, outcome, fs.nodes);
      outcomes := outcomes + [outcome];
      listings := listings + [listing];
      i := i + 1;
    }
  }

  /** Visiting one more mapping appends one more visit. */
  lemma VisitsSnoc(ms: seq<Location>, listings: seq<seq<Path>>, i: nat, listing: seq<Path>)
    requires i < |ms| && |listings| == i
    ensures Visits(ms[..i + 1], listings + [listing]) == Visits(ms[..i], listings) + [(ms[i], listing)]
  {
  }

  /**
   * The reconciliation part of `main`: the symlink loop, then, unless it
   * panicked, the copy loop.
   */
  method Reconcile(fs: FileSystem, cwd: Path, env: Env, symlinks: seq<Location>, copies: seq<Location>)
    returns (linkOutcomes: seq<LinkOutcome>, copyOutcomes: seq<CopyOutcome>, listings: seq<seq<Path>>)
    modifies fs
    ensures var links := LinkAllSpec(old(fs.nodes), fs.sealed, cwd, env, symlinks);
            && linkOutcomes == links.outcomes
            && (if Aborted(links, Panicked)
                then copyOutcomes == [] && listings == [] && fs.nodes == links.state
                else
                  && |listings| == |copyOutcomes| <= |copies|
                  && (|copyOutcomes| < |copies| ==> Aborted(Run(copyOutcomes, fs.nodes), SourceMissing))
                  && ListingsFit(links.state, fs.sealed, cwd, env, copies[..|copyOutcomes|], listings)
                  && Run(copyOutcomes, fs.nodes) == CopyAllSpec(links.state, fs.sealed, cwd, env, copies[..|copyOutcomes|], listings))
  {
    linkOutcomes := LinkAll(fs, cwd, env, symlinks);
    if Aborted(Run(linkOutcomes, fs.nodes), Panicked) {
      return linkOutcomes, [], [];
    }
    copyOutcomes, listings := CopyAll(fs, cwd, env, copies);
  }

  /** A symlink turn is skipped exactly when its destination resolves to the empty string, and a skipped turn changes nothing. */
  lemma LinkTurnSkips(fs: Tree, sealed: set<Path>, cwd: Path, env: Env, m: Location)
    ensures var step := LinkTurn(fs, sealed, cwd, env, m);
            && (step.outcome == LinkOutcome.NoDestination <==> FormatLocation(m, env) == "")
            && (step.outcome == LinkOutcome.NoDestination ==> step.after == fs)
  {
  }

  /** A copy turn is skipped exactly when its destination resolves to the empty string, and a skipped turn changes nothing. */
  lemma CopyTurnSkips(fs: Tree, sealed: set<Path>, cwd: Path, env: Env, m: Location, listing: seq<Path>)
    ensures var step := CopyTurn(fs, sealed, cwd, env, m, listing);
            && (step.outcome == CopyOutcome.NoDestination <==> FormatLocation(m, env) == "")
            && (step.outcome == CopyOutcome.NoDestination ==> step.after == fs)
  {
  }

  /** Outcome `i` of the symlink loop is "no destination" exactly when mapping `i` resolves to the empty string. */
  lemma LinkSkipsExactlyUnresolved(fs: Tree, sealed: set<Path>, cwd: Path, env: Env, ms: seq<Location>)
    ensures var r := LinkAllSpec(fs, sealed, cwd, env, ms);
            forall i :: 0 <= i < |r.outcomes| ==> (r.outcomes[i] == LinkOutcome.NoDestination <==> FormatLocation(ms[i], env) == "")
  {
    var turns := LinkTurns(sealed, cwd, env);
    var unresolved := (m: Location) => FormatLocation(m, env) == "";
    forall t, m ensures turns(t, m).0 == LinkOutcome.NoDestination <==> unresolved(m) {
      LinkTurnSkips(t, sealed, cwd, env, m);
    }
    PassSkipsExactly(fs, ms, turns, Panicked, LinkOutcome.NoDestination, unresolved);
  }

  /** When no symlink mapping resolves on this host, the loop skips them all and changes nothing. */
  lemma LinkNothingWhenUnresolved(fs: Tree, sealed: set<Path>, cwd: Path, env: Env, ms: seq<Location>)
    requires forall i :: 0 <= i < |ms| ==> FormatLocation(ms[i], env) == ""
    ensures LinkAllSpec(fs, sealed, cwd, env, ms) == Run(seq(|ms|, _ => LinkOutcome.NoDestination), fs)
  {
    var turns := LinkTurns(sealed, cwd, env);
    forall t, i | 0 <= i < |ms| ensures turns(t, ms[i]) == (LinkOutcome.NoDestination, t) {
      LinkTurnSkips(t, sealed, cwd, env, ms[i]);
    }
    PassAllSkipped(fs, ms, turns, Panicked, LinkOutcome.NoDestination);
  }

  /** Outcome `i` of the copy loop is "no destination" exactly when mapping `i` resolves to the empty string. */
  lemma CopySkipsExactlyUnresolved(fs: Tree, sealed: set<Path>, cwd: Path, env: Env, ms: seq<Location>, listings: seq<seq<Path>>)
    requires |listings| == |ms|
    ensures var r := CopyAllSpec(fs, sealed, cwd, env, ms, listings);
            forall i :: 0 <= i < |r.outcomes| ==> (r.outcomes[i] == CopyOutcome.NoDestination <==> FormatLocation(ms[i], env) == "")
  {
    var turns := CopyTurns(sealed, cwd, env);
    var unresolved := (v: CopyVisit) => FormatLocation(v.0, env) == "";
    forall t, v: CopyVisit ensures turns(t, v).0 == CopyOutcome.NoDestination <==> unresolved(v) {
      CopyTurnSkips(t, sealed, cwd, env, v.0, v.1);
    }
    PassSkipsExactly(fs, Visits(ms, listings), turns, SourceMissing, CopyOutcome.NoDestination, unresolved);
  }

  /** When no copy mapping resolves on this host, the loop skips them all and changes nothing. */
  lemma CopyNothingWhenUnresolved(fs: Tree, sealed: set<Path>, cwd: Path, env: Env, ms: seq<Location>, listings: seq<seq<Path>>)
    requires |listings| == |ms|
    requires forall i :: 0 <= i < |ms| ==> FormatLocation(ms[i], env) == ""
    ensures CopyAllSpec(fs, sealed, cwd, env, ms, listings) == Run(seq(|ms|, _ => CopyOutcome.NoDestination), fs)
  {
    var turns := CopyTurns(sealed, cwd, env);
    var vs := Visits(ms, listings);
    forall t, i | 0 <= i < |vs| ensures turns(t, vs[i]) == (CopyOutcome.NoDestination, t) {
      CopyTurnSkips(t, sealed, cwd, env, ms[i], listings[i]);
    }
    PassAllSkipped(fs, vs, turns, SourceMissing, CopyOutcome.NoDestination);
  }
}
