/**
 * The paths the bounded exploration reports: from every initial state, every
 * walk along successor lists with exactly `bound` steps, in successor-list
 * order, whether or not a final state is met on the way.
 */
module BoundedExploration {
  import opened TransitionSystem

  /**
   * The paths reported once `prefix` is on the path buffer and `s` is appended
   * to it: `[prefix + [s]]` when that has `bound + 1` states, and otherwise the
   * paths through each successor of `s` in turn.
   */
  function BoundedPaths(sys: System, prefix: seq<nat>, s: nat, bound: nat): seq<seq<nat>>
    requires |prefix| <= bound
    decreases bound - |prefix| + 1, 0
  {
    if |prefix| == bound then [prefix + [s]]
    else BoundedFrom(sys, prefix + [s], sys.succ(s), bound)
  }

  /** The paths through each state of `ts`, one after the other, below `prefix`. */
  function BoundedFrom(sys: System, prefix: seq<nat>, ts: seq<nat>, bound: nat): seq<seq<nat>>
    requires |prefix| <= bound
    decreases bound - |prefix| + 1, |ts|
  {
    if ts == [] then []
    else BoundedFrom(sys, prefix, ts[..|ts| - 1], bound) + BoundedPaths(sys, prefix, ts[|ts| - 1], bound)
  }

  /**
   * Every reported path has `bound + 1` states, extends `prefix + [s]`, stays
   * among the reachable states and follows successor lists from `s` on.
   */
  lemma {:induction false} BoundedPathsShape(sys: System, prefix: seq<nat>, s: nat, bound: nat)
    requires sys.Valid() && InRange(sys, prefix) && s < |sys.reach| && |prefix| <= bound
    ensures forall p :: p in BoundedPaths(sys, prefix, s, bound) ==>
              && |p| == bound + 1
              && p[..|prefix| + 1] == prefix + [s]
              && InRange(sys, p)
              && WalkFrom(sys, p, |prefix|)
    decreases bound - |prefix| + 1, 0
  {
    if |prefix| < bound {
      SuccInRange(sys, s);
      var prefix' := prefix + [s];
      BoundedFromShape(sys, prefix', sys.succ(s), bound);
      forall p | p in BoundedPaths(sys, prefix, s, bound)
        ensures p[..|prefix| + 1] == prefix + [s] && WalkFrom(sys, p, |prefix|)
      {
        assert p[..|prefix'|] == prefix';
        assert p[..|prefix| + 1] == p[..|prefix'|];
        assert p[|prefix|] == prefix'[|prefix|] == s;
      }
    }
  }

  lemma {:induction false} BoundedFromShape(sys: System, prefix: seq<nat>, ts: seq<nat>, bound: nat)
    requires sys.Valid() && InRange(sys, prefix) && InRange(sys, ts) && 0 < |prefix| <= bound
    ensures forall p :: p in BoundedFrom(sys, prefix, ts, bound) ==>
              && |p| == bound + 1
              && p[..|prefix|] == prefix
              && p[|prefix|] in ts
              && InRange(sys, p)
              && WalkFrom(sys, p, |prefix|)
    decreases bound - |prefix| + 1, |ts|
  {
    if ts != [] {
      var init := ts[..|ts| - 1];
      var t := ts[|ts| - 1];
      assert ts == init + [t];
      BoundedFromShape(sys, prefix, init, bound);
      BoundedPathsShape(sys, prefix, t, bound);
      forall p | p in BoundedPaths(sys, prefix, t, bound)
        ensures p[..|prefix|] == prefix && p[|prefix|] in ts
      {
        assert p[..|prefix|] == (p[..|prefix| + 1])[..|prefix|];
        assert p[|prefix|] == (p[..|prefix| + 1])[|prefix|];
      }
    }
  }

  /** Every walk with the right length and prefix is among the reported paths. */
  lemma {:induction false} BoundedPathsComplete(sys: System, prefix: seq<nat>, s: nat, bound: nat, p: seq<nat>)
    requires sys.Valid() && InRange(sys, prefix) && s < |sys.reach| && |prefix| <= bound
    requires |p| == bound + 1 && p[..|prefix| + 1] == prefix + [s] && WalkFrom(sys, p, |prefix|)
    ensures p in BoundedPaths(sys, prefix, s, bound)
    decreases bound - |prefix|
  {
    if |prefix| < bound {
      var prefix' := prefix + [s];
      var t := p[|prefix| + 1];
      assert p[|prefix|] == s;
      assert t in sys.succ(s);
      assert p[..|prefix'| + 1] == prefix' + [t];
      BoundedPathsComplete(sys, prefix', t, bound, p);
      SuccInRange(sys, s);
      BoundedFromContains(sys, prefix', sys.succ(s), t, bound, p);
    } else {
      assert p == p[..|prefix| + 1];
    }
  }

  lemma {:induction false} BoundedFromContains(sys: System, prefix: seq<nat>, ts: seq<nat>, t: nat, bound: nat, p: seq<nat>)
    requires sys.Valid() && InRange(sys, prefix) && InRange(sys, ts) && 0 < |prefix| <= bound
    requires t in ts && p in BoundedPaths(sys, prefix, t, bound)
    ensures p in BoundedFrom(sys, prefix, ts, bound)
    decreases |ts|
  {
    var init := ts[..|ts| - 1];
    if ts[|ts| - 1] != t {
      assert ts == init + [ts[|ts| - 1]];
      BoundedFromContains(sys, prefix, init, t, bound, p);
    }
  }

  /**
   * From one initial state, the reported paths are exactly the walks of
   * `bound + 1` states that start there.
   */
  lemma BoundedPathsExactly(sys: System, s: nat, bound: nat, p: seq<nat>)
    requires sys.Valid() && s < |sys.reach|
    ensures p in BoundedPaths(sys, [], s, bound) <==> |p| == bound + 1 && p[0] == s && IsWalk(sys, p)
  {
    BoundedPathsShape(sys, [], s, bound);
    if p in BoundedPaths(sys, [], s, bound) {
      assert p[0] == p[..1][0];
    }
    if |p| == bound + 1 && p[0] == s && IsWalk(sys, p) {
      assert p[..1] == [s];
      BoundedPathsComplete(sys, [], s, bound, p);
    }
  }

  /** The paths reported for the initial states `starts`, taken in order. */
  function AllBounded(sys: System, starts: seq<nat>, bound: nat): seq<seq<nat>> {
    if starts == [] then []
    else AllBounded(sys, starts[..|starts| - 1], bound) + BoundedPaths(sys, [], starts[|starts| - 1], bound)
  }

  /** The bounded exploration reports exactly the walks of `bound` steps from an initial state. */
  lemma {:induction false} AllBoundedExactly(sys: System, starts: seq<nat>, bound: nat, p: seq<nat>)
    requires sys.Valid() && InRange(sys, starts)
    ensures p in AllBounded(sys, starts, bound) <==> |p| == bound + 1 && p[0] in starts && IsWalk(sys, p)
  {
    if starts != [] {
      var init := starts[..|starts| - 1];
      var s := starts[|starts| - 1];
      assert starts == init + [s];
      AllBoundedExactly(sys, init, bound, p);
      BoundedPathsExactly(sys, s, bound, p);
    }
  }

  /**
   * When the probabilities along every successor list sum to one, the
   * transition products of the paths reported below `prefix + [s]` add up to
   * the product of `prefix + [s]` itself: extending the path loses no mass.
   */
  lemma {:induction false} BoundedPathsMass(sys: System, prefix: seq<nat>, s: nat, bound: nat)
    requires sys.Valid() && Stochastic(sys) && s < |sys.reach| && |prefix| <= bound
    ensures ProductSum(sys, BoundedPaths(sys, prefix, s, bound)) == TransProduct(sys, prefix + [s])
    decreases bound - |prefix| + 1, 0
  {
    if |prefix| == bound {
      assert [prefix + [s]][1..] == [];
    } else {
      var prefix' := prefix + [s];
      SuccInRange(sys, s);
      BoundedFromMass(sys, prefix', sys.succ(s), bound);
      ExtSumFactor(sys, prefix', sys.succ(s));
      assert prefix'[|prefix'| - 1] == s;
      MulBy(TransProduct(sys, prefix'), SumTp(sys, s, sys.succ(s)), 1.0);
    }
  }

  /** The products of the paths through the states of `ts` add up to the products of `prefix` extended by each of them. */
  lemma {:induction false} BoundedFromMass(sys: System, prefix: seq<nat>, ts: seq<nat>, bound: nat)
    requires sys.Valid() && Stochastic(sys) && InRange(sys, ts) && 0 < |prefix| <= bound
    ensures ProductSum(sys, BoundedFrom(sys, prefix, ts, bound)) == ExtSum(sys, prefix, ts)
    decreases bound - |prefix| + 1, |ts|
  {
    if ts != [] {
      var init := ts[..|ts| - 1];
      var t := ts[|ts| - 1];
      assert InRange(sys, init) by {
        forall i | 0 <= i < |init| ensures init[i] < |sys.reach| {
          assert init[i] == ts[i];
        }
      }
      var a := BoundedFrom(sys, prefix, init, bound);
      var b := BoundedPaths(sys, prefix, t, bound);
      assert BoundedFrom(sys, prefix, ts, bound) == a + b;
      ProductSumAppend(sys, a, b);
      BoundedFromMass(sys, prefix, init, bound);
      BoundedPathsMass(sys, prefix, t, bound);
    }
  }

  /** Under the same condition, each initial state contributes a total product of one. */
  lemma {:induction false} AllBoundedMass(sys: System, starts: seq<nat>, bound: nat)
    requires sys.Valid() && Stochastic(sys) && InRange(sys, starts)
    ensures ProductSum(sys, AllBounded(sys, starts, bound)) == |starts| as real
  {
    if starts != [] {
      var init := starts[..|starts| - 1];
      var s := starts[|starts| - 1];
      assert InRange(sys, init) by {
        forall i | 0 <= i < |init| ensures init[i] < |sys.reach| {
          assert init[i] == starts[i];
        }
      }
      AllBoundedMass(sys, init, bound);
      BoundedPathsMass(sys, [], s, bound);
      ProductSumAppend(sys, AllBounded(sys, init, bound), BoundedPaths(sys, [], s, bound));
      assert [] + [s] == [s];
    }
  }
}
