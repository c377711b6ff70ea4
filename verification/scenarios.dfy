/**
 * Two small systems on which the exploration modes are worked out in full.
 */
module Scenarios {
  import opened TransitionSystem
  import opened BoundedExploration
  import opened UnboundedExploration
  import opened JointTable
  import opened Prior
  import opened Explorer

  /** Two states that lead to each other and nothing else; state 0 is initial. */
  function Cycle(): System {
    System([ExplicitState("a", "h"), ExplicitState("b", "h")], [0],
           s => if s == 0 then [1] else [0],
           (s, t) => 1.0)
  }

  /**
   * Bounded search on the two-state cycle with three steps reports exactly
   * one path of four states, although no state is final.
   */
  lemma CycleBoundedThreeSteps()
    ensures Cycle().Valid()
    ensures AllBounded(Cycle(), Cycle().start, 3) == [[0, 1, 0, 1]]
  {
    var sys := Cycle();
    assert sys.succ(0) == [1] && sys.succ(1) == [0];
    assert [1][..0] == [] && [0][..0] == [];
    assert [0, 1, 0] + [1] == [0, 1, 0, 1] && [0, 1] + [0] == [0, 1, 0] && [0] + [1] == [0, 1] && [] + [0] == [0];
    assert BoundedPaths(sys, [0, 1, 0], 1, 3) == [[0, 1, 0, 1]];
    assert BoundedFrom(sys, [0, 1, 0], [1], 3) == [[0, 1, 0, 1]];
    assert BoundedPaths(sys, [0, 1], 0, 3) == [[0, 1, 0, 1]];
    assert BoundedFrom(sys, [0, 1], [0], 3) == [[0, 1, 0, 1]];
    assert BoundedPaths(sys, [0], 1, 3) == [[0, 1, 0, 1]];
    assert BoundedFrom(sys, [0], [1], 3) == [[0, 1, 0, 1]];
    assert BoundedPaths(sys, [], 0, 3) == [[0, 1, 0, 1]];
    assert sys.start[..0] == [];
  }

  /**
   * State 0 leads to 1 with probability 0.3 and to 2 with probability 0.7,
   * state 2 leads to 1, and state 1 is final with a self-loop.
   */
  function Diamond(): System {
    System([ExplicitState("x", "h0"), ExplicitState("y", "h1"), ExplicitState("z", "h2")], [0],
           s => if s == 0 then [1, 2] else if s == 2 then [1] else [1],
           (s, t) => if s == 0 && t == 1 then 0.3 else if s == 0 then 0.7 else 1.0)
  }

  function DiamondRank(s: nat): nat {
    if s == 0 then 2 else if s == 2 then 1 else 0
  }

  lemma DiamondAcyclic()
    ensures Diamond().Valid() && Acyclic(Diamond(), DiamondRank)
  {
    var sys := Diamond();
    assert sys.succ(0) == [1, 2] && sys.succ(1) == [1] && sys.succ(2) == [1];
  }

  /** The parent map after state 0 is popped, and after state 2 is popped. */
  function FirstParents(): ParentMap { map[0 := -1, 1 := 0, 2 := 0] }
  function SecondParents(): ParentMap { map[0 := -1, 1 := 2, 2 := 0] }

  /** What popping state 0 pushes and records. */
  lemma DiamondPushesFirst()
    ensures NonSelf([1, 2], 0) == [1, 2] && Reparent(map[0 := -1], [1, 2], 0) == FirstParents()
  {
    assert NonSelf([1, 2], 0) == [1, 2] by {
      assert [1, 2][..1] == [1] && [1][..0] == [];
    }
    assert Reparent(map[0 := -1], [1], 0) == map[0 := -1][1 := 0] by {
      assert [1][..0] == [];
    }
    assert Reparent(map[0 := -1], [1, 2], 0) == Reparent(map[0 := -1], [1], 0)[2 := 0] by {
      assert [1, 2][..1] == [1];
    }
    assert map[0 := -1][1 := 0][2 := 0] == FirstParents();
  }

  /** What popping state 2 then pushes and records. */
  lemma DiamondPushesSecond()
    ensures NonSelf([1], 2) == [1] && Reparent(FirstParents(), [1], 2) == SecondParents()
  {
    assert NonSelf([1], 2) == [1] by {
      assert [1][..0] == [];
    }
    assert Reparent(FirstParents(), [1], 2) == FirstParents()[1 := 2] by {
      assert [1][..0] == [];
    }
    assert FirstParents()[1 := 2] == SecondParents();
  }

  lemma DiamondPopInitial()
    ensures TraversalInv(Diamond(), DiamondRank, 0, [0], map[0 := -1])
    ensures TraversalInv(Diamond(), DiamondRank, 0, [1, 2], FirstParents())
    ensures Pending(Diamond(), DiamondRank, 0, [0], map[0 := -1]) ==
            Pending(Diamond(), DiamondRank, 0, [1, 2], FirstParents())
  {
    var sys := Diamond();
    DiamondAcyclic();
    InitialInv(sys, DiamondRank, 0);
    assert sys.succ(0) == [1, 2];
    assert !sys.IsFinal(0) by { assert 1 in sys.succ(0); }
    DiamondPushesFirst();
    PendingStep(sys, DiamondRank, 0, [0], map[0 := -1]);
    assert [0][..0] + NonSelf(sys.succ(0), 0) == [1, 2];
  }

  lemma DiamondPopMiddle()
    requires TraversalInv(Diamond(), DiamondRank, 0, [1, 2], FirstParents())
    ensures TraversalInv(Diamond(), DiamondRank, 0, [1, 1], SecondParents())
    ensures Pending(Diamond(), DiamondRank, 0, [1, 2], FirstParents()) ==
            Pending(Diamond(), DiamondRank, 0, [1, 1], SecondParents())
  {
    var sys := Diamond();
    assert sys.succ(2) == [1];
    assert !sys.IsFinal(2) by { assert 1 in sys.succ(2); }
    DiamondPushesSecond();
    PendingStep(sys, DiamondRank, 0, [1, 2], FirstParents());
    assert [1, 2][..1] + NonSelf(sys.succ(2), 2) == [1, 1];
  }

  lemma DiamondChain()
    ensures ChainsEnd(SecondParents(), DiamondRank, 2)
    ensures Chain(SecondParents(), DiamondRank, 2, 1) == [0, 2, 1]
  {
    var p := SecondParents();
    assert Chain(p, DiamondRank, 2, 0) == [0];
    assert Chain(p, DiamondRank, 2, 2) == [0, 2];
  }

  lemma DiamondPopFinal()
    requires TraversalInv(Diamond(), DiamondRank, 0, [1, 1], SecondParents())
    ensures Pending(Diamond(), DiamondRank, 0, [1, 1], SecondParents()) == [[0, 2, 1], [0, 2, 1]]
  {
    var sys := Diamond();
    assert sys.succ(1) == [1];
    assert sys.IsFinal(1);
    DiamondChain();
    assert [1, 1][..1] == [1] && [1][..0] == [];
    PendingFinal(sys, DiamondRank, 0, [1, 1], SecondParents());
    PendingFinal(sys, DiamondRank, 0, [1], SecondParents());
  }

  /**
   * Because a later push overwrites the parent of state 1, the traversal from
   * state 0 reports the path through state 2 twice and the direct path
   * 0, 1 never.
   */
  lemma DiamondUnboundedOverwritesParent()
    ensures Diamond().Valid() && Acyclic(Diamond(), DiamondRank)
    ensures UnboundedPaths(Diamond(), DiamondRank, 0) == [[0, 2, 1], [0, 2, 1]]
  {
    DiamondAcyclic();
    DiamondPopInitial();
    DiamondPopMiddle();
    DiamondPopFinal();
  }

  lemma DiamondStochastic()
    ensures Stochastic(Diamond())
  {
    var sys := Diamond();
    assert [1, 2][..1] == [1] && [1][..0] == [];
    assert SumTp(sys, 0, [1, 2]) == 1.0;
    assert SumTp(sys, 1, [1]) == 1.0 && SumTp(sys, 2, [1]) == 1.0;
  }

  /**
   * The outgoing probabilities of every state sum to one, and the bounded
   * search with two steps keeps a total product of one; the unbounded
   * traversal, which reports the path through state 2 twice and the direct
   * path never, reports a total product of 1.4.
   */
  lemma DiamondUnboundedMass()
    ensures Stochastic(Diamond())
    ensures ProductSum(Diamond(), AllBounded(Diamond(), Diamond().start, 2)) == 1.0
    ensures Acyclic(Diamond(), DiamondRank)
    ensures ProductSum(Diamond(), UnboundedPaths(Diamond(), DiamondRank, 0)) == 1.4
  {
    var sys := Diamond();
    DiamondStochastic();
    DiamondUnboundedOverwritesParent();
    assert InRange(sys, sys.start);
    AllBoundedMass(sys, sys.start, 2);
    assert [0, 2, 1][1..] == [2, 1] && [2, 1][1..] == [1];
    assert TransProduct(sys, [0, 2, 1]) == 0.7;
    var ps: seq<seq<nat>> := [[0, 2, 1], [0, 2, 1]];
    assert ps[1..] == [[0, 2, 1]] && |ps[1..][1..]| == 0;
  }

  /** Under the uniform prior, the path 0, 2, 1 of the diamond has probability 0.7. */
  lemma DiamondPathProb(e: ProbModelOutputExplorer)
    requires e.sys == Diamond() && e.priorType == Uniform
    ensures e.PathOk([0, 2, 1]) && e.PathProb([0, 2, 1]) == 0.7
    ensures e.sys.Output(1) == "y" && e.sys.Secret(0) == "h0"
  {
    var sys := Diamond();
    assert InRange(sys, [0, 2, 1]);
    assert [0, 2, 1][1..] == [2, 1] && [2, 1][1..] == [1];
    assert TransProduct(sys, [0, 2, 1]) == 0.7;
  }

  /** Accounting for the path 0, 2, 1 twice leaves 1.4 in the entry ("y", "h0") and nothing else. */
  lemma DiamondPathTwice(e: ProbModelOutputExplorer)
    requires e.sys == Diamond() && e.priorType == Uniform
    ensures e.AllOk([[0, 2, 1], [0, 2, 1]])
    ensures e.HandleAll(map[], [[0, 2, 1], [0, 2, 1]]) == map["y" := map["h0" := 1.4]]
  {
    DiamondPathProb(e);
    var p: seq<nat> := [0, 2, 1];
    var ps: seq<seq<nat>> := [p, p];
    assert ps[1..] == [p] && ps[1..][1..] == [];
    assert e.AllOk(ps);
    var once: Table := map["y" := map["h0" := 0.7]];
    assert e.AddPath(map[], p) == once;
    assert once["y"]["h0" := 0.7 + 0.7] == map["h0" := 1.4];
    assert once["y" := map["h0" := 1.4]] == map["y" := map["h0" := 1.4]];
    assert e.AddPath(once, p) == map["y" := map["h0" := 1.4]];
    assert e.HandleAll(map[], ps) == e.HandleAll(once, [p]);
  }

  /**
   * An explorer of the diamond under the uniform prior ends the unbounded
   * traversal with the single entry ("y", "h0") holding 1.4: the path through
   * state 2 is counted twice, and the table's total exceeds one.
   */
  lemma DiamondUnboundedTable(e: ProbModelOutputExplorer)
    requires e.sys == Diamond() && e.priorType == Uniform
    ensures e.AllOk(UnboundedPaths(Diamond(), DiamondRank, 0))
    ensures e.HandleAll(map[], UnboundedPaths(Diamond(), DiamondRank, 0)) == map["y" := map["h0" := 1.4]]
    ensures TableTotal(e.HandleAll(map[], UnboundedPaths(Diamond(), DiamondRank, 0))) == 1.4
  {
    DiamondUnboundedOverwritesParent();
    DiamondPathTwice(e);
    DiamondPathProb(e);
    var ps: seq<seq<nat>> := [[0, 2, 1], [0, 2, 1]];
    assert ps[1..] == [[0, 2, 1]] && ps[1..][1..] == [];
    e.TotalAfterHandleAll(map[], ps);
    EmptyTotal();
  }

  /**
   * State 1 is final and has a self-loop, so 0, 1 and 0, 1, 1 and 0, 2, 1 are
   * all walks from 0 that end there; only the two without a self-step are
   * counted, and the traversal reports two paths.
   */
  lemma DiamondFinalCount()
    ensures Diamond().IsFinal(1)
    ensures IsWalk(Diamond(), [0, 1]) && IsWalk(Diamond(), [0, 1, 1]) && IsWalk(Diamond(), [0, 2, 1])
    ensures FinalWalk(Diamond(), 0, [0, 1]) && FinalWalk(Diamond(), 0, [0, 2, 1]) && !FinalWalk(Diamond(), 0, [0, 1, 1])
    ensures Diamond().Valid() && Acyclic(Diamond(), DiamondRank)
    ensures FinalCount(Diamond(), DiamondRank, 0) == 2
  {
    var sys := Diamond();
    DiamondUnboundedOverwritesParent();
    UnboundedCount(sys, DiamondRank, 0);
    assert sys.succ(0) == [1, 2] && sys.succ(1) == [1] && sys.succ(2) == [1];
    assert [0, 1, 1][2] == [0, 1, 1][1];
  }
}
