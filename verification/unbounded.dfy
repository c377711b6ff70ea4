/**
 * The paths the unbounded exploration reports.  The traversal keeps a stack of
 * states and a parent map; it pops a state, reports the parent chain that ends
 * there when the state is final, and otherwise pushes every successor other
 * than the state itself after recording the popped state as its parent.  There
 * is no visited check: a state is pushed once per walk without self-steps
 * that reaches it, and a later push overwrites its parent.  The traversal ends when the transition
 * graph is acyclic once self-loops are ignored; `rank` witnesses that.
 */
module UnboundedExploration {
  import opened TransitionSystem

  /** A state to the state that last pushed it; -1 marks the initial state. */
  type ParentMap = map<nat, int>

  /** The states of `ts` other than `s`, in order: what is pushed for a popped `s`. */
  function NonSelf(ts: seq<nat>, s: nat): (r: seq<nat>)
    ensures forall x :: x in r <==> x in ts && x != s
  {
    if ts == [] then []
    else
      var init := ts[..|ts| - 1];
      var t := ts[|ts| - 1];
      assert ts == init + [t];
      NonSelf(init, s) + (if t == s then [] else [t])
  }

  /**
   * The parent map after `cur` is recorded, in order, as the parent of each
   * state of `ts` other than `cur` itself; earlier parents are overwritten.
   */
  function Reparent(parent: ParentMap, ts: seq<nat>, cur: nat): (r: ParentMap)
    ensures forall k :: k in r <==> k in parent || (k in ts && k != cur)
    ensures forall k :: k in r ==> r[k] == if k in ts && k != cur then cur as int else parent[k]
  {
    if ts == [] then parent
    else
      var init := ts[..|ts| - 1];
      var ps := ts[|ts| - 1];
      assert ts == init + [ps];
      var before := Reparent(parent, init, cur);
      if ps == cur then before else before[ps := cur as int]
  }

  // ---------------------------------------------------------------- termination

  /**
   * The number of states on the tree that the traversal unfolds below `s`:
   * one for `s` and the weights of its successors other than itself.
   */
  ghost function Weight(sys: System, rank: nat -> nat, s: nat): (w: nat)
    requires sys.Valid() && Acyclic(sys, rank) && s < |sys.reach|
    ensures w >= 1
    decreases rank(s), 1, 0
  {
    1 + ChildWeight(sys, rank, s, sys.succ(s))
  }

  ghost function ChildWeight(sys: System, rank: nat -> nat, s: nat, ts: seq<nat>): nat
    requires sys.Valid() && Acyclic(sys, rank) && s < |sys.reach|
    requires forall t :: t in ts ==> t in sys.succ(s)
    decreases rank(s), 0, |ts|
  {
    if ts == [] then 0
    else
      var t := ts[|ts| - 1];
      assert t in ts;
      ChildWeight(sys, rank, s, ts[..|ts| - 1]) + (if t == s then 0 else Weight(sys, rank, t))
  }

  ghost function StackWeight(sys: System, rank: nat -> nat, stack: seq<nat>): nat
    requires sys.Valid() && Acyclic(sys, rank) && InRange(sys, stack)
  {
    if stack == [] then 0
    else StackWeight(sys, rank, stack[..|stack| - 1]) + Weight(sys, rank, stack[|stack| - 1])
  }

  lemma {:induction false} StackWeightAppend(sys: System, rank: nat -> nat, a: seq<nat>, b: seq<nat>)
    requires sys.Valid() && Acyclic(sys, rank) && InRange(sys, a) && InRange(sys, b)
    ensures InRange(sys, a + b)
    ensures StackWeight(sys, rank, a + b) == StackWeight(sys, rank, a) + StackWeight(sys, rank, b)
    decreases |b|
  {
    if b != [] {
      var init := b[..|b| - 1];
      assert (a + b)[..|a + b| - 1] == a + init;
      StackWeightAppend(sys, rank, a, init);
    } else {
      assert a + b == a;
    }
  }

  /** Pushing `t` onto `stack` adds the weight of `t`. */
  lemma StackWeightSnoc(sys: System, rank: nat -> nat, stack: seq<nat>, t: nat)
    requires sys.Valid() && Acyclic(sys, rank) && InRange(sys, stack) && t < |sys.reach|
    ensures InRange(sys, stack + [t])
    ensures StackWeight(sys, rank, stack + [t]) == StackWeight(sys, rank, stack) + Weight(sys, rank, t)
  {
    assert (stack + [t])[..|stack|] == stack;
  }

  /** Popping a non-final `s` and pushing its other successors lowers the stack weight by one. */
  lemma {:induction false} ChildWeightIsPushed(sys: System, rank: nat -> nat, s: nat, ts: seq<nat>)
    requires sys.Valid() && Acyclic(sys, rank) && s < |sys.reach|
    requires forall t :: t in ts ==> t in sys.succ(s)
    ensures InRange(sys, NonSelf(ts, s))
    ensures ChildWeight(sys, rank, s, ts) == StackWeight(sys, rank, NonSelf(ts, s))
    decreases |ts|
  {
    SuccInRange(sys, s);
    if ts != [] {
      var init := ts[..|ts| - 1];
      var t := ts[|ts| - 1];
      assert ts == init + [t];
      assert t in ts;
      ChildWeightIsPushed(sys, rank, s, init);
      assert ChildWeight(sys, rank, s, ts) == ChildWeight(sys, rank, s, init) + (if t == s then 0 else Weight(sys, rank, t));
      if t != s {
        StackWeightSnoc(sys, rank, NonSelf(init, s), t);
      } else {
        assert NonSelf(ts, s) == NonSelf(init, s);
      }
    }
  }

  // ---------------------------------------------------------------- parent chains

  /** Following parents from any key climbs in rank, stays at or below `top`, and stops at -1. */
  ghost predicate ChainsEnd(parent: ParentMap, rank: nat -> nat, top: nat) {
    forall k {:trigger LinkOk(parent, rank, top, k)} :: k in parent ==> LinkOk(parent, rank, top, k)
  }

  /** The key `k` is at or below `top` and its parent is the sentinel or a key of higher rank. */
  ghost predicate LinkOk(parent: ParentMap, rank: nat -> nat, top: nat, k: nat)
    requires k in parent
  {
    && rank(k) <= top
    && (parent[k] == -1 || (0 <= parent[k] && parent[k] as nat in parent && rank(k) < rank(parent[k] as nat)))
  }

  /**
   * The parent chain that ends at `k`, read from the state whose parent is -1
   * down to `k`.
   */
  ghost function Chain(parent: ParentMap, rank: nat -> nat, top: nat, k: nat): seq<nat>
    requires k in parent && ChainsEnd(parent, rank, top)
    decreases top - rank(k)
  {
    assert LinkOk(parent, rank, top, k);
    if parent[k] == -1 then [k]
    else
      assert LinkOk(parent, rank, top, parent[k] as nat);
      Chain(parent, rank, top, parent[k] as nat) + [k]
  }

  /**
   * The chain ends at `k`, starts at a state whose parent is the sentinel, and
   * each state on it is the recorded parent of the next.
   */
  lemma {:induction false} ChainShape(parent: ParentMap, rank: nat -> nat, top: nat, k: nat)
    requires k in parent && ChainsEnd(parent, rank, top)
    ensures var r := Chain(parent, rank, top, k);
            && |r| >= 1 && r[|r| - 1] == k
            && (forall x :: x in r ==> x in parent)
            && parent[r[0]] == -1
            && (forall i :: 0 <= i < |r| - 1 ==> parent[r[i + 1]] == r[i] as int)
    decreases top - rank(k)
  {
    assert LinkOk(parent, rank, top, k);
    if parent[k] != -1 {
      var up := parent[k] as nat;
      assert LinkOk(parent, rank, top, up);
      ChainShape(parent, rank, top, up);
      var c := Chain(parent, rank, top, up);
      assert Chain(parent, rank, top, k) == c + [k];
    }
  }

  /**
   * The parent map of a traversal from `initial`: `initial` keeps the sentinel
   * and every other key was pushed by its parent along a transition that is
   * not a self-loop.
   */
  ghost predicate ParentOk(sys: System, rank: nat -> nat, initial: nat, parent: ParentMap) {
    && initial in parent && parent[initial] == -1
    && forall k {:trigger KeyOk(sys, rank, initial, parent, k)} :: k in parent ==> KeyOk(sys, rank, initial, parent, k)
  }

  ghost predicate KeyOk(sys: System, rank: nat -> nat, initial: nat, parent: ParentMap, k: nat)
    requires k in parent
  {
    && k < |sys.reach|
    && rank(k) <= rank(initial)
    && (k != initial ==>
          && 0 <= parent[k]
          && parent[k] as nat in parent
          && k in sys.succ(parent[k] as nat)
          && k != parent[k] as nat)
  }

  ghost predicate TraversalInv(sys: System, rank: nat -> nat, initial: nat, stack: seq<nat>, parent: ParentMap) {
    && sys.Valid() && Acyclic(sys, rank)
    && ParentOk(sys, rank, initial, parent)
    && InRange(sys, stack)
    && forall x :: x in stack ==> x in parent
  }

  lemma ParentOkChainsEnd(sys: System, rank: nat -> nat, initial: nat, parent: ParentMap)
    requires sys.Valid() && Acyclic(sys, rank) && ParentOk(sys, rank, initial, parent)
    ensures ChainsEnd(parent, rank, rank(initial))
  {
    forall k | k in parent ensures LinkOk(parent, rank, rank(initial), k) {
      assert KeyOk(sys, rank, initial, parent, k);
      if k != initial {
        assert KeyOk(sys, rank, initial, parent, parent[k] as nat);
      }
    }
  }

  /** In a traversal from `initial`, the chain ending at a key is a walk from `initial` without self-steps. */
  lemma ChainFromInitial(sys: System, rank: nat -> nat, initial: nat, parent: ParentMap, k: nat)
    requires sys.Valid() && Acyclic(sys, rank) && ParentOk(sys, rank, initial, parent) && k in parent
    ensures ChainsEnd(parent, rank, rank(initial))
    ensures var c := Chain(parent, rank, rank(initial), k);
              |c| >= 1 && c[0] == initial && c[|c| - 1] == k && InRange(sys, c) && IsWalk(sys, c) && NoSelfStep(c)
  {
    ParentOkChainsEnd(sys, rank, initial, parent);
    ChainShape(parent, rank, rank(initial), k);
    var c := Chain(parent, rank, rank(initial), k);
    assert KeyOk(sys, rank, initial, parent, c[0]);
    forall i | 0 <= i < |c| - 1 ensures c[i + 1] in sys.succ(c[i]) && c[i + 1] != c[i] {
      assert c[i + 1] in c;
      assert c[i + 1] != initial;
      assert KeyOk(sys, rank, initial, parent, c[i + 1]);
    }
    forall i | 0 <= i < |c| ensures c[i] < |sys.reach| {
      assert c[i] in c;
      assert KeyOk(sys, rank, initial, parent, c[i]);
    }
  }

  /** Recording a popped `cur` as the parent of its other successors keeps the parent map well formed. */
  lemma ReparentOk(sys: System, rank: nat -> nat, initial: nat, parent: ParentMap, cur: nat)
    requires sys.Valid() && Acyclic(sys, rank) && ParentOk(sys, rank, initial, parent) && cur in parent
    ensures ParentOk(sys, rank, initial, Reparent(parent, sys.succ(cur), cur))
  {
    var ts := sys.succ(cur);
    var parent' := Reparent(parent, ts, cur);
    assert KeyOk(sys, rank, initial, parent, cur);
    // `initial` outranks every state in the map, so no popped state pushes it again.
    assert initial !in ts || initial == cur;
    forall k | k in parent' ensures KeyOk(sys, rank, initial, parent', k) {
      if k in ts && k != cur {
        assert rank(k) < rank(cur);
      } else {
        assert KeyOk(sys, rank, initial, parent, k);
      }
    }
  }

  /** Popping `stack`'s top without pushing keeps the traversal invariant and lowers the stack weight. */
  lemma PopPreservesInv(sys: System, rank: nat -> nat, initial: nat, stack: seq<nat>, parent: ParentMap)
    requires TraversalInv(sys, rank, initial, stack, parent) && stack != []
    ensures stack[|stack| - 1] in parent && ChainsEnd(parent, rank, rank(initial))
    ensures TraversalInv(sys, rank, initial, stack[..|stack| - 1], parent)
    ensures StackWeight(sys, rank, stack[..|stack| - 1]) < StackWeight(sys, rank, stack)
  {
    assert stack[|stack| - 1] in stack;
    assert forall x :: x in stack[..|stack| - 1] ==> x in stack;
    ParentOkChainsEnd(sys, rank, initial, parent);
  }

  /**
   * Popping `stack`'s top and pushing its other successors keeps the
   * traversal invariant and lowers the stack weight by one.
   */
  lemma StepPreservesInv(sys: System, rank: nat -> nat, initial: nat, stack: seq<nat>, parent: ParentMap)
    requires TraversalInv(sys, rank, initial, stack, parent) && stack != []
    ensures var cur := stack[|stack| - 1];
            && TraversalInv(sys, rank, initial, stack[..|stack| - 1] + NonSelf(sys.succ(cur), cur), Reparent(parent, sys.succ(cur), cur))
            && StackWeight(sys, rank, stack[..|stack| - 1] + NonSelf(sys.succ(cur), cur)) == StackWeight(sys, rank, stack) - 1
  {
    var cur := stack[|stack| - 1];
    var rest := stack[..|stack| - 1];
    var ts := sys.succ(cur);
    assert cur in stack;
    ReparentOk(sys, rank, initial, parent, cur);
    var parent' := Reparent(parent, ts, cur);
    forall x | x in rest + NonSelf(ts, cur) ensures x in parent' {
      if x in rest {
        assert x in stack;
      }
    }
    assert InRange(sys, rest) by {
      forall i | 0 <= i < |rest| ensures rest[i] < |sys.reach| {
        assert rest[i] == stack[i];
      }
    }
    SuccInRange(sys, cur);
    ChildWeightIsPushed(sys, rank, cur, ts);
    StackWeightAppend(sys, rank, rest, NonSelf(ts, cur));
  }

  // ---------------------------------------------------------------- reported paths

  /** A path the unbounded exploration may report: a walk from `initial` to a final state without self-steps. */
  ghost predicate FinalWalk(sys: System, initial: nat, p: seq<nat>) {
    && |p| >= 1
    && p[0] == initial
    && sys.IsFinal(p[|p| - 1])
    && InRange(sys, p)
    && IsWalk(sys, p)
    && NoSelfStep(p)
  }

  /** The paths still to be reported by a traversal that has `stack` and `parent`. */
  ghost function Pending(sys: System, rank: nat -> nat, initial: nat, stack: seq<nat>, parent: ParentMap): seq<seq<nat>>
    requires TraversalInv(sys, rank, initial, stack, parent)
    decreases StackWeight(sys, rank, stack)
  {
    if stack == [] then []
    else
      var cur := stack[|stack| - 1];
      var rest := stack[..|stack| - 1];
      if sys.IsFinal(cur) then
        PopPreservesInv(sys, rank, initial, stack, parent);
        [Chain(parent, rank, rank(initial), cur)] + Pending(sys, rank, initial, rest, parent)
      else
        StepPreservesInv(sys, rank, initial, stack, parent);
        Pending(sys, rank, initial, rest + NonSelf(sys.succ(cur), cur), Reparent(parent, sys.succ(cur), cur))
  }

  /**
   * Unfolds `Pending` by one pop of a final state, which reports its parent
   * chain first, together with the invariant and weight facts its callers need
   * to continue the induction.
   */
  lemma PendingFinal(sys: System, rank: nat -> nat, initial: nat, stack: seq<nat>, parent: ParentMap)
    requires TraversalInv(sys, rank, initial, stack, parent) && stack != [] && sys.IsFinal(stack[|stack| - 1])
    ensures stack[|stack| - 1] in parent && ChainsEnd(parent, rank, rank(initial))
    ensures TraversalInv(sys, rank, initial, stack[..|stack| - 1], parent)
    ensures StackWeight(sys, rank, stack[..|stack| - 1]) < StackWeight(sys, rank, stack)
    ensures Pending(sys, rank, initial, stack, parent) ==
              [Chain(parent, rank, rank(initial), stack[|stack| - 1])] + Pending(sys, rank, initial, stack[..|stack| - 1], parent)
  {
    PopPreservesInv(sys, rank, initial, stack, parent);
  }

  /**
   * Unfolds `Pending` by one pop of a state that is not final, which reports
   * nothing yet and pushes its other successors, together with the invariant
   * and weight facts its callers need to continue the induction.
   */
  lemma PendingStep(sys: System, rank: nat -> nat, initial: nat, stack: seq<nat>, parent: ParentMap)
    requires TraversalInv(sys, rank, initial, stack, parent) && stack != [] && !sys.IsFinal(stack[|stack| - 1])
    ensures var cur := stack[|stack| - 1];
            && TraversalInv(sys, rank, initial, stack[..|stack| - 1] + NonSelf(sys.succ(cur), cur), Reparent(parent, sys.succ(cur), cur))
            && StackWeight(sys, rank, stack[..|stack| - 1] + NonSelf(sys.succ(cur), cur)) < StackWeight(sys, rank, stack)
            && Pending(sys, rank, initial, stack, parent) ==
                 Pending(sys, rank, initial, stack[..|stack| - 1] + NonSelf(sys.succ(cur), cur), Reparent(parent, sys.succ(cur), cur))
  {
    StepPreservesInv(sys, rank, initial, stack, parent);
  }

  /** Handling one more successor of `cur`: pushed and re-parented unless it is `cur` itself. */
  lemma PushStep(parent: ParentMap, ts: seq<nat>, cur: nat, i: nat)
    requires i < |ts|
    ensures NonSelf(ts[..i + 1], cur) == NonSelf(ts[..i], cur) + (if ts[i] == cur then [] else [ts[i]])
    ensures Reparent(parent, ts[..i + 1], cur) ==
              if ts[i] == cur then Reparent(parent, ts[..i], cur) else Reparent(parent, ts[..i], cur)[ts[i] := cur as int]
  {
    assert ts[..i + 1][..i] == ts[..i];
  }

  /**
   * Pushes every state of `succs` other than `current` onto `stack`, in order,
   * recording `current` as its parent.
   */
  method PushSuccessors(succs: seq<nat>, current: nat, stack: seq<nat>, parent: ParentMap)
    returns (stack': seq<nat>, parent': ParentMap)
    ensures stack' == stack + NonSelf(succs, current)
    ensures parent' == Reparent(parent, succs, current)
  {
    stack', parent' := stack, parent;
    for i := 0 to |succs|
      invariant stack' == stack + NonSelf(succs[..i], current)
      invariant parent' == Reparent(parent, succs[..i], current)
    {
      PushStep(parent, succs, current, i);
      var ps := succs[i];
      if ps != current {
        parent' := parent'[ps := current];
        stack' := stack' + [ps];
      }
    }
    assert succs[..|succs|] == succs;
  }

  /** The traversal starts with `initial` on the stack and the sentinel as its parent. */
  lemma InitialInv(sys: System, rank: nat -> nat, initial: nat)
    requires sys.Valid() && Acyclic(sys, rank) && initial < |sys.reach|
    ensures TraversalInv(sys, rank, initial, [initial], map[initial := -1])
  {
  }

  /**
   * Every path still to be reported is a walk from `initial` to a final state
   * that never repeats a state in consecutive positions.
   */
  lemma {:induction false} PendingShape(sys: System, rank: nat -> nat, initial: nat, stack: seq<nat>, parent: ParentMap)
    requires TraversalInv(sys, rank, initial, stack, parent)
    ensures forall p :: p in Pending(sys, rank, initial, stack, parent) ==> FinalWalk(sys, initial, p)
    decreases StackWeight(sys, rank, stack)
  {
    if stack != [] {
      var cur := stack[|stack| - 1];
      if sys.IsFinal(cur) {
        PendingFinal(sys, rank, initial, stack, parent);
        ChainFromInitial(sys, rank, initial, parent, cur);
        PendingShape(sys, rank, initial, stack[..|stack| - 1], parent);
      } else {
        PendingStep(sys, rank, initial, stack, parent);
        PendingShape(sys, rank, initial, stack[..|stack| - 1] + NonSelf(sys.succ(cur), cur), Reparent(parent, sys.succ(cur), cur));
      }
    }
  }

  /** The paths reported by a traversal started from `initial`. */
  ghost function UnboundedPaths(sys: System, rank: nat -> nat, initial: nat): seq<seq<nat>>
    requires sys.Valid() && Acyclic(sys, rank) && initial < |sys.reach|
  {
    InitialInv(sys, rank, initial);
    Pending(sys, rank, initial, [initial], map[initial := -1])
  }

  /** `q` is a non-empty path whose last state is `f`. */
  ghost predicate EndsAt(q: seq<nat>, f: nat) {
    |q| >= 1 && q[|q| - 1] == f
  }

  /**
   * The final state at the end of any walk without self-steps from a state on
   * the stack ends some path still to be reported.
   */
  lemma {:induction false} PendingReaches(sys: System, rank: nat -> nat, initial: nat, stack: seq<nat>, parent: ParentMap,
                       p: seq<nat>, f: nat)
    returns (q: seq<nat>)
    requires TraversalInv(sys, rank, initial, stack, parent)
    requires |p| >= 1 && p[0] in stack && IsWalk(sys, p) && NoSelfStep(p) && p[|p| - 1] == f && sys.IsFinal(f)
    ensures q in Pending(sys, rank, initial, stack, parent) && EndsAt(q, f)
    decreases StackWeight(sys, rank, stack), 1
  {
    if sys.IsFinal(stack[|stack| - 1]) {
      q := ReachesPopFinal(sys, rank, initial, stack, parent, p, f);
    } else {
      q := ReachesPopStep(sys, rank, initial, stack, parent, p, f);
    }
  }

  /** A walk without self-steps that takes a step starts at a state that is not final. */
  lemma LeavesNonFinal(sys: System, p: seq<nat>)
    requires |p| > 1 && IsWalk(sys, p) && NoSelfStep(p)
    ensures !sys.IsFinal(p[0])
  {
    assert p[1] in sys.succ(p[0]) && p[1] != p[0];
  }

  /** The top is final: either the walk is that one state, or it starts below the top. */
  lemma {:induction false} ReachesPopFinal(sys: System, rank: nat -> nat, initial: nat, stack: seq<nat>, parent: ParentMap,
                                           p: seq<nat>, f: nat)
    returns (q: seq<nat>)
    requires TraversalInv(sys, rank, initial, stack, parent) && stack != [] && sys.IsFinal(stack[|stack| - 1])
    requires |p| >= 1 && p[0] in stack && IsWalk(sys, p) && NoSelfStep(p) && p[|p| - 1] == f && sys.IsFinal(f)
    ensures q in Pending(sys, rank, initial, stack, parent) && EndsAt(q, f)
    decreases StackWeight(sys, rank, stack), 0
  {
    var cur := stack[|stack| - 1];
    var rest := stack[..|stack| - 1];
    assert stack == rest + [cur];
    PendingFinal(sys, rank, initial, stack, parent);
    if p[0] == cur {
      if |p| > 1 {
        LeavesNonFinal(sys, p);
        assert false;
      }
      ChainShape(parent, rank, rank(initial), cur);
      q := Chain(parent, rank, rank(initial), cur);
    } else {
      q := PendingReaches(sys, rank, initial, rest, parent, p, f);
    }
  }

  /** The top is not final: a walk from it continues from a successor pushed now. */
  lemma {:induction false} ReachesPopStep(sys: System, rank: nat -> nat, initial: nat, stack: seq<nat>, parent: ParentMap,
                                          p: seq<nat>, f: nat)
    returns (q: seq<nat>)
    requires TraversalInv(sys, rank, initial, stack, parent) && stack != [] && !sys.IsFinal(stack[|stack| - 1])
    requires |p| >= 1 && p[0] in stack && IsWalk(sys, p) && NoSelfStep(p) && p[|p| - 1] == f && sys.IsFinal(f)
    ensures q in Pending(sys, rank, initial, stack, parent) && EndsAt(q, f)
    decreases StackWeight(sys, rank, stack), 0
  {
    var cur := stack[|stack| - 1];
    var rest := stack[..|stack| - 1];
    assert stack == rest + [cur];
    var ts := sys.succ(cur);
    PendingStep(sys, rank, initial, stack, parent);
    var stack' := rest + NonSelf(ts, cur);
    var parent' := Reparent(parent, ts, cur);
    if p[0] == cur {
      assert |p| > 1;
      var p' := p[1..];
      assert p[1] in ts && p[1] != cur;
      assert IsWalk(sys, p') && NoSelfStep(p') by {
        forall i | 0 <= i < |p'| - 1 ensures p'[i + 1] in sys.succ(p'[i]) && p'[i + 1] != p'[i] {
          assert p'[i] == p[i + 1] && p'[i + 1] == p[i + 2];
        }
      }
      q := PendingReaches(sys, rank, initial, stack', parent', p', f);
    } else {
      q := PendingReaches(sys, rank, initial, stack', parent', p, f);
    }
  }

  /**
   * A state is the last state of a path the traversal from `initial` reports
   * exactly when some walk without self-steps leads from `initial` to it and
   * it is final.
   */
  lemma UnboundedReachesExactly(sys: System, rank: nat -> nat, initial: nat, f: nat)
    requires sys.Valid() && Acyclic(sys, rank) && initial < |sys.reach|
    ensures (exists q :: q in UnboundedPaths(sys, rank, initial) && |q| >= 1 && q[|q| - 1] == f) <==>
            (exists p :: FinalWalk(sys, initial, p) && |p| >= 1 && p[|p| - 1] == f)
  {
    InitialInv(sys, rank, initial);
    PendingShape(sys, rank, initial, [initial], map[initial := -1]);
    if p :| FinalWalk(sys, initial, p) && |p| >= 1 && p[|p| - 1] == f {
      var q := PendingReaches(sys, rank, initial, [initial], map[initial := -1], p, f);
    }
  }

  // ---------------------------------------------------------------- number of reported paths

  /**
   * The number of walks without self-steps from `s` to a final state, counted
   * on the tree the traversal unfolds below `s`: one for a final `s`, and
   * otherwise the counts of its successors other than itself, a successor
   * listed twice counting twice.
   */
  ghost function FinalCount(sys: System, rank: nat -> nat, s: nat): nat
    requires sys.Valid() && Acyclic(sys, rank) && s < |sys.reach|
    decreases rank(s), 1, 0
  {
    if sys.IsFinal(s) then 1 else ChildFinalCount(sys, rank, s, sys.succ(s))
  }

  ghost function ChildFinalCount(sys: System, rank: nat -> nat, s: nat, ts: seq<nat>): nat
    requires sys.Valid() && Acyclic(sys, rank) && s < |sys.reach|
    requires forall t :: t in ts ==> t in sys.succ(s)
    decreases rank(s), 0, |ts|
  {
    if ts == [] then 0
    else
      var t := ts[|ts| - 1];
      assert t in ts;
      ChildFinalCount(sys, rank, s, ts[..|ts| - 1]) + (if t == s then 0 else FinalCount(sys, rank, t))
  }

  ghost function StackFinalCount(sys: System, rank: nat -> nat, stack: seq<nat>): nat
    requires sys.Valid() && Acyclic(sys, rank) && InRange(sys, stack)
  {
    if stack == [] then 0
    else StackFinalCount(sys, rank, stack[..|stack| - 1]) + FinalCount(sys, rank, stack[|stack| - 1])
  }

  lemma {:induction false} StackFinalCountAppend(sys: System, rank: nat -> nat, a: seq<nat>, b: seq<nat>)
    requires sys.Valid() && Acyclic(sys, rank) && InRange(sys, a) && InRange(sys, b)
    ensures InRange(sys, a + b)
    ensures StackFinalCount(sys, rank, a + b) == StackFinalCount(sys, rank, a) + StackFinalCount(sys, rank, b)
    decreases |b|
  {
    if b != [] {
      var init := b[..|b| - 1];
      assert (a + b)[..|a + b| - 1] == a + init;
      StackFinalCountAppend(sys, rank, a, init);
    } else {
      assert a + b == a;
    }
  }

  /** Pushing `t` onto `stack` adds the count of `t`. */
  lemma StackFinalCountSnoc(sys: System, rank: nat -> nat, stack: seq<nat>, t: nat)
    requires sys.Valid() && Acyclic(sys, rank) && InRange(sys, stack) && t < |sys.reach|
    ensures InRange(sys, stack + [t])
    ensures StackFinalCount(sys, rank, stack + [t]) == StackFinalCount(sys, rank, stack) + FinalCount(sys, rank, t)
  {
    assert (stack + [t])[..|stack|] == stack;
  }

  /** The successors of `s` that are pushed carry, together, the count of `s`'s children. */
  lemma {:induction false} ChildFinalCountIsPushed(sys: System, rank: nat -> nat, s: nat, ts: seq<nat>)
    requires sys.Valid() && Acyclic(sys, rank) && s < |sys.reach|
    requires forall t :: t in ts ==> t in sys.succ(s)
    ensures InRange(sys, NonSelf(ts, s))
    ensures ChildFinalCount(sys, rank, s, ts) == StackFinalCount(sys, rank, NonSelf(ts, s))
    decreases |ts|
  {
    SuccInRange(sys, s);
    if ts != [] {
      var init := ts[..|ts| - 1];
      var t := ts[|ts| - 1];
      assert ts == init + [t];
      assert t in ts;
      ChildFinalCountIsPushed(sys, rank, s, init);
      assert ChildFinalCount(sys, rank, s, ts) ==
             ChildFinalCount(sys, rank, s, init) + (if t == s then 0 else FinalCount(sys, rank, t));
      if t != s {
        StackFinalCountSnoc(sys, rank, NonSelf(init, s), t);
      } else {
        assert NonSelf(ts, s) == NonSelf(init, s);
      }
    }
  }

  /** A traversal with `stack` still reports one path per unit of the stack's count. */
  lemma {:induction false} PendingCount(sys: System, rank: nat -> nat, initial: nat, stack: seq<nat>, parent: ParentMap)
    requires TraversalInv(sys, rank, initial, stack, parent)
    ensures |Pending(sys, rank, initial, stack, parent)| == StackFinalCount(sys, rank, stack)
    decreases StackWeight(sys, rank, stack)
  {
    if stack != [] {
      var cur := stack[|stack| - 1];
      var rest := stack[..|stack| - 1];
      if sys.IsFinal(cur) {
        PendingFinal(sys, rank, initial, stack, parent);
        PendingCount(sys, rank, initial, rest, parent);
      } else {
        PendingStep(sys, rank, initial, stack, parent);
        var ts := sys.succ(cur);
        var pushed := NonSelf(ts, cur);
        PendingCount(sys, rank, initial, rest + pushed, Reparent(parent, ts, cur));
        assert InRange(sys, rest) by {
          forall i | 0 <= i < |rest| ensures rest[i] < |sys.reach| {
            assert rest[i] == stack[i];
          }
        }
        ChildFinalCountIsPushed(sys, rank, cur, ts);
        StackFinalCountAppend(sys, rank, rest, pushed);
      }
    }
  }

  /**
   * From `initial`, the unbounded exploration reports exactly `FinalCount`
   * paths: one per walk without self-steps to a final state, although the
   * path reported for such a walk may be another one.
   */
  lemma UnboundedCount(sys: System, rank: nat -> nat, initial: nat)
    requires sys.Valid() && Acyclic(sys, rank) && initial < |sys.reach|
    ensures |UnboundedPaths(sys, rank, initial)| == FinalCount(sys, rank, initial)
  {
    InitialInv(sys, rank, initial);
    PendingCount(sys, rank, initial, [initial], map[initial := -1]);
    assert [initial][..0] == [];
  }

  /** The count is positive exactly when some walk without self-steps reaches a final state. */
  lemma FinalCountPositive(sys: System, rank: nat -> nat, initial: nat)
    requires sys.Valid() && Acyclic(sys, rank) && initial < |sys.reach|
    ensures FinalCount(sys, rank, initial) > 0 <==> exists p :: FinalWalk(sys, initial, p)
  {
    UnboundedCount(sys, rank, initial);
    InitialInv(sys, rank, initial);
    PendingShape(sys, rank, initial, [initial], map[initial := -1]);
    var ps := UnboundedPaths(sys, rank, initial);
    if |ps| > 0 {
      assert ps[0] in ps;
      assert FinalWalk(sys, initial, ps[0]);
    }
    if p :| FinalWalk(sys, initial, p) {
      UnboundedReachesExactly(sys, rank, initial, p[|p| - 1]);
    }
  }

  /** The paths reported for the initial states `starts`, taken in order. */
  ghost function AllUnbounded(sys: System, rank: nat -> nat, starts: seq<nat>): seq<seq<nat>>
    requires sys.Valid() && Acyclic(sys, rank) && InRange(sys, starts)
  {
    if starts == [] then []
    else
      var init := starts[..|starts| - 1];
      var s := starts[|starts| - 1];
      assert starts == init + [s];
      AllUnbounded(sys, rank, init) + UnboundedPaths(sys, rank, s)
  }

  /**
   * Every path the unbounded exploration reports runs from one of `starts` to
   * a final state along successor lists, never stepping from a state to itself.
   */
  lemma {:induction false} AllUnboundedShape(sys: System, rank: nat -> nat, starts: seq<nat>)
    requires sys.Valid() && Acyclic(sys, rank) && InRange(sys, starts)
    ensures forall p :: p in AllUnbounded(sys, rank, starts) ==> |p| >= 1 && p[0] in starts && FinalWalk(sys, p[0], p)
  {
    if starts != [] {
      var init := starts[..|starts| - 1];
      var s := starts[|starts| - 1];
      assert starts == init + [s];
      AllUnboundedShape(sys, rank, init);
      InitialInv(sys, rank, s);
      PendingShape(sys, rank, s, [s], map[s := -1]);
    }
  }

  /**
   * A state is the last state of a path the unbounded exploration reports
   * exactly when it is final and some walk without self-steps leads to it
   * from one of `starts`.
   */
  lemma {:induction false} AllUnboundedReachesExactly(sys: System, rank: nat -> nat, starts: seq<nat>, f: nat)
    requires sys.Valid() && Acyclic(sys, rank) && InRange(sys, starts)
    ensures (exists q :: q in AllUnbounded(sys, rank, starts) && |q| >= 1 && q[|q| - 1] == f) <==>
            (exists p :: |p| >= 1 && p[0] in starts && FinalWalk(sys, p[0], p) && p[|p| - 1] == f)
  {
    if starts != [] {
      var init := starts[..|starts| - 1];
      var s := starts[|starts| - 1];
      assert starts == init + [s];
      AllUnboundedReachesExactly(sys, rank, init, f);
      UnboundedReachesExactly(sys, rank, s, f);
      var a := AllUnbounded(sys, rank, init);
      var b := UnboundedPaths(sys, rank, s);
      assert AllUnbounded(sys, rank, starts) == a + b;
      if q :| q in a + b && |q| >= 1 && q[|q| - 1] == f {
        if q in a {
          var p :| |p| >= 1 && p[0] in init && FinalWalk(sys, p[0], p) && p[|p| - 1] == f;
          assert p[0] in starts;
        } else {
          var p :| FinalWalk(sys, s, p) && |p| >= 1 && p[|p| - 1] == f;
          assert p[0] in starts;
        }
      }
      if p :| |p| >= 1 && p[0] in starts && FinalWalk(sys, p[0], p) && p[|p| - 1] == f {
        if p[0] in init {
          var q :| q in a && |q| >= 1 && q[|q| - 1] == f;
          assert q in a + b;
        } else {
          assert p[0] == s;
          var q :| q in b && |q| >= 1 && q[|q| - 1] == f;
          assert q in a + b;
        }
      }
    }
  }
}
