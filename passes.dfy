/**
 * The shape shared by the two loops of `main`: a list of items is visited in
 * order, each turn maps the current state to an outcome and a new state, and
 * a turn whose outcome is a panic ends the loop (and the process) there.
 */
module Passes {

  /** The outcomes of the turns taken so far, one per item visited, and the state after them. */
  datatype Run<S, O> = Run(outcomes: seq<O>, state: S)

  /** The run has panicked: its last outcome is `panic`. */
  predicate Aborted<S, O(==)>(r: Run<S, O>, panic: O)
  {
    |r.outcomes| > 0 && r.outcomes[|r.outcomes| - 1] == panic
  }

  /** One more turn on `x`, unless the run has already panicked. */
  function Step<S, X, O(==)>(prev: Run<S, O>, x: X, turn: (S, X) -> (O, S), panic: O): Run<S, O>
  {
    if Aborted(prev, panic) then prev
    else
      var (o, next) := turn(prev.state, x);
      Run(prev.outcomes + [o], next)
  }

  /**
   * The loop over `xs` from the state `s0`: one outcome per item, in order,
   * until a panic, which is then the last outcome recorded.
   */
  function Pass<S, X, O(==)>(s0: S, xs: seq<X>, turn: (S, X) -> (O, S), panic: O): (r: Run<S, O>)
    ensures |r.outcomes| <= |xs|
    ensures |r.outcomes| < |xs| ==> Aborted(r, panic)
    decreases |xs|
  {
    if xs == [] then Run([], s0)
    else Step(Pass(s0, xs[..|xs| - 1], turn, panic), xs[|xs| - 1], turn, panic)
  }

  /** A panic can only be the last outcome: every earlier turn went through. */
  lemma {:induction false} PassPanicsLast<S, X, O>(s0: S, xs: seq<X>, turn: (S, X) -> (O, S), panic: O)
    ensures forall i :: 0 <= i < |Pass(s0, xs, turn, panic).outcomes| - 1 ==> Pass(s0, xs, turn, panic).outcomes[i] != panic
    decreases |xs|
  {
    if xs != [] {
      var prev := Pass(s0, xs[..|xs| - 1], turn, panic);
      PassPanicsLast(s0, xs[..|xs| - 1], turn, panic);
      var r := Pass(s0, xs, turn, panic);
      assert r == Step(prev, xs[|xs| - 1], turn, panic);
      if !Aborted(prev, panic) {
        forall i | 0 <= i < |r.outcomes| - 1
          ensures r.outcomes[i] != panic
        {
          assert r.outcomes == prev.outcomes + [turn(prev.state, xs[|xs| - 1]).0];
          if i < |prev.outcomes| - 1 {
            assert prev.outcomes[i] != panic;
          }
        }
      }
    }
  }

  /** Every turn the loop takes satisfies `fits` on the state in which it is taken and its item. */
  ghost predicate TurnsFit<S, X, O>(s0: S, xs: seq<X>, turn: (S, X) -> (O, S), panic: O, fits: (S, X) -> bool)
    decreases |xs|
  {
    xs != [] ==>
      var prev := Pass(s0, xs[..|xs| - 1], turn, panic);
      && TurnsFit(s0, xs[..|xs| - 1], turn, panic, fits)
      && (!Aborted(prev, panic) ==> fits(prev.state, xs[|xs| - 1]))
  }

  /** The loop over one more item is one more step. */
  lemma PassSnoc<S, X, O>(s0: S, xs: seq<X>, x: X, turn: (S, X) -> (O, S), panic: O)
    ensures Pass(s0, xs + [x], turn, panic) == Step(Pass(s0, xs, turn, panic), x, turn, panic)
  {
    assert (xs + [x])[..|xs|] == xs;
  }

  /** The turns over one more item fit when the earlier ones do and the new one, if taken, does. */
  lemma TurnsFitSnoc<S, X, O>(s0: S, xs: seq<X>, x: X, turn: (S, X) -> (O, S), panic: O, fits: (S, X) -> bool)
    ensures var prev := Pass(s0, xs, turn, panic);
            TurnsFit(s0, xs + [x], turn, panic, fits) <==> TurnsFit(s0, xs, turn, panic, fits) && (!Aborted(prev, panic) ==> fits(prev.state, x))
  {
    assert (xs + [x])[..|xs|] == xs;
  }

  /** A loop that has taken the turns for `xs[..i]` without panicking takes the turn for `xs[i]` next. */
  lemma PassStep<S, X, O>(s0: S, xs: seq<X>, i: nat, turn: (S, X) -> (O, S), panic: O, prev: Run<S, O>, o: O, next: S)
    requires i < |xs| && Pass(s0, xs[..i], turn, panic) == prev && !Aborted(prev, panic)
    requires turn(prev.state, xs[i]) == (o, next)
    ensures Pass(s0, xs[..i + 1], turn, panic) == Run(prev.outcomes + [o], next)
  {
    assert xs[..i + 1][..i] == xs[..i];
  }

  /** A loop that has taken the turns for `xs` without panicking, and takes the turn for `x`, is the pass over `xs + [x]`. */
  lemma PassExtend<S, X, O>(s0: S, xs: seq<X>, x: X, turn: (S, X) -> (O, S), panic: O, prev: Run<S, O>, o: O, next: S)
    requires Pass(s0, xs, turn, panic) == prev && !Aborted(prev, panic)
    requires turn(prev.state, x) == (o, next)
    ensures Pass(s0, xs + [x], turn, panic) == Run(prev.outcomes + [o], next)
  {
    PassSnoc(s0, xs, x, turn, panic);
  }

  /** The turns over `xs + [x]` fit when those over `xs` do and the turn for `x`, taken from where they left off, fits. */
  lemma TurnsFitExtend<S, X, O>(s0: S, xs: seq<X>, x: X, turn: (S, X) -> (O, S), panic: O, fits: (S, X) -> bool, prev: Run<S, O>)
    requires TurnsFit(s0, xs, turn, panic, fits) && Pass(s0, xs, turn, panic) == prev
    requires fits(prev.state, x)
    ensures TurnsFit(s0, xs + [x], turn, panic, fits)
  {
    TurnsFitSnoc(s0, xs, x, turn, panic, fits);
  }

  /** A loop that has visited every item, or has panicked, is the whole pass. */
  lemma PassDone<S, X, O>(s0: S, xs: seq<X>, i: nat, turn: (S, X) -> (O, S), panic: O, r: Run<S, O>)
    requires i <= |xs| && Pass(s0, xs[..i], turn, panic) == r
    requires i == |xs| || Aborted(r, panic)
    ensures Pass(s0, xs, turn, panic) == r
  {
    if i < |xs| {
      PassAbortStops(s0, xs, i, turn, panic);
    } else {
      assert xs[..i] == xs;
    }
  }

  /** After a panic no further item is visited: once the pass over `xs[..k]` has panicked, the pass over `xs` is that pass. */
  lemma {:induction false} PassAbortStops<S, X, O>(s0: S, xs: seq<X>, k: nat, turn: (S, X) -> (O, S), panic: O)
    requires k <= |xs| && Aborted(Pass(s0, xs[..k], turn, panic), panic)
    ensures Pass(s0, xs, turn, panic) == Pass(s0, xs[..k], turn, panic)
    decreases |xs|
  {
    if k < |xs| {
      var init := xs[..|xs| - 1];
      assert init[..k] == xs[..k];
      PassAbortStops(s0, init, k, turn, panic);
    } else {
      assert xs[..k] == xs;
    }
  }

  /** The outcomes are in item order: the loop over a prefix of the items yields a prefix of the outcomes. */
  lemma {:induction false} PassInOrder<S, X, O>(s0: S, xs: seq<X>, k: nat, turn: (S, X) -> (O, S), panic: O)
    requires k <= |xs|
    ensures Pass(s0, xs[..k], turn, panic).outcomes <= Pass(s0, xs, turn, panic).outcomes
    decreases |xs|
  {
    if k < |xs| {
      var init := xs[..|xs| - 1];
      assert init[..k] == xs[..k];
      PassInOrder(s0, init, k, turn, panic);
    } else {
      assert xs[..k] == xs;
    }
  }

  /**
   * When a turn yields `skip` exactly for the items `skipped` picks out,
   * whatever the state, the run's outcome `i` is `skip` exactly when item `i`
   * is one of those.
   */
  lemma {:induction false} PassSkipsExactly<S, X, O>(s0: S, xs: seq<X>, turn: (S, X) -> (O, S), panic: O, skip: O, skipped: X -> bool)
    requires forall s, x :: turn(s, x).0 == skip <==> skipped(x)
    ensures var r := Pass(s0, xs, turn, panic);
            forall i :: 0 <= i < |r.outcomes| ==> (r.outcomes[i] == skip <==> skipped(xs[i]))
    decreases |xs|
  {
    if xs != [] {
      var init := xs[..|xs| - 1];
      PassSkipsExactly(s0, init, turn, panic, skip, skipped);
      var prev := Pass(s0, init, turn, panic);
      var r := Pass(s0, xs, turn, panic);
      assert r == Step(prev, xs[|xs| - 1], turn, panic);
      forall i | 0 <= i < |r.outcomes|
        ensures r.outcomes[i] == skip <==> skipped(xs[i])
      {
        if i < |prev.outcomes| {
          assert init[i] == xs[i];
          assert r.outcomes[i] == prev.outcomes[i];
        } else {
          assert i == |init| && r.outcomes[i] == turn(prev.state, xs[i]).0;
        }
      }
    }
  }

  /**
   * When every item's turn is a skip that leaves the state as it is, the run
   * skips them all and ends in the state it started from.
   */
  lemma {:induction false} PassAllSkipped<S, X, O>(s0: S, xs: seq<X>, turn: (S, X) -> (O, S), panic: O, skip: O)
    requires skip != panic
    requires forall s, i :: 0 <= i < |xs| ==> turn(s, xs[i]) == (skip, s)
    ensures Pass(s0, xs, turn, panic) == Run(seq(|xs|, _ => skip), s0)
    decreases |xs|
  {
    if xs != [] {
      var init := xs[..|xs| - 1];
      assert forall i :: 0 <= i < |init| ==> init[i] == xs[i];
      PassAllSkipped(s0, init, turn, panic, skip);
      assert turn(s0, xs[|xs| - 1]) == (skip, s0);
      assert seq(|xs|, _ => skip) == seq(|init|, _ => skip) + [skip];
    }
  }
}
