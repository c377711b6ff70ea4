/**
 * The explicit view of a probabilistic model that the output explorer works on:
 * the reachable states with their public and secret labels, the initial states,
 * the successor lists and the transition probabilities.  The sparse-matrix
 * library that answers these queries in PRISM-InLeak is replaced by the two
 * functions `succ` and `tp`.
 */
module TransitionSystem {

  /** A reachable state as the state store exposes it. */
  datatype ExplicitState = ExplicitState(publicData: string, secretData: string)

  /**
   * A state is named by its number, an index into `reach`; `start` lists the
   * numbers of the initial states in order; `succ(s)` is the successor list of
   * `s` (a self-loop included); `tp(s, t)` is the probability of `s -> t`.
   */
  datatype System = System(
    reach: seq<ExplicitState>,
    start: seq<nat>,
    succ: nat -> seq<nat>,
    tp: (nat, nat) -> real)
  {
    /** Every state number the explorer can meet names a reachable state. */
    ghost predicate Valid() {
      && (forall i :: 0 <= i < |start| ==> start[i] < |reach|)
      && (forall s: nat, t :: s < |reach| && t in succ(s) ==> t < |reach|)
    }

    /** A final state has no successor other than, possibly, itself. */
    predicate IsFinal(s: nat) {
      forall t :: t in succ(s) ==> t == s
    }

    function Output(s: nat): string
      requires s < |reach|
    {
      reach[s].publicData
    }

    function Secret(s: nat): string
      requires s < |reach|
    {
      reach[s].secretData
    }
  }

  /** Every state on `p` is a reachable state. */
  predicate InRange(sys: System, p: seq<nat>) {
    forall i :: 0 <= i < |p| ==> p[i] < |sys.reach|
  }

  lemma SuccInRange(sys: System, s: nat)
    requires sys.Valid() && s < |sys.reach|
    ensures InRange(sys, sys.succ(s))
  {
    forall i | 0 <= i < |sys.succ(s)| ensures sys.succ(s)[i] < |sys.reach| {
      assert sys.succ(s)[i] in sys.succ(s);
    }
  }

  /** From position `k` on, each state of `p` is a successor of the one before. */
  predicate WalkFrom(sys: System, p: seq<nat>, k: nat) {
    forall i :: k <= i < |p| - 1 ==> p[i + 1] in sys.succ(p[i])
  }

  predicate IsWalk(sys: System, p: seq<nat>) {
    WalkFrom(sys, p, 0)
  }

  /** No step of `p` is a self-loop. */
  predicate NoSelfStep(p: seq<nat>) {
    forall i :: 0 <= i < |p| - 1 ==> p[i + 1] != p[i]
  }

  /**
   * `rank` strictly decreases along every transition that is not a self-loop:
   * the transition graph is acyclic once self-loops are ignored.
   */
  ghost predicate Acyclic(sys: System, rank: nat -> nat) {
    forall s: nat, t :: s < |sys.reach| && t in sys.succ(s) && t != s ==> rank(t) < rank(s)
  }

  /** The product of the transition probabilities of consecutive states of `p`. */
  function TransProduct(sys: System, p: seq<nat>): real {
    if |p| <= 1 then 1.0 else sys.tp(p[0], p[1]) * TransProduct(sys, p[1..])
  }

  /** Extending a path by one state multiplies its product by the new step. */
  lemma {:induction false} TransProductSnoc(sys: System, p: seq<nat>, x: nat)
    requires |p| >= 1
    ensures TransProduct(sys, p + [x]) == TransProduct(sys, p) * sys.tp(p[|p| - 1], x)
  {
    if |p| == 1 {
      assert (p + [x])[1..] == [x];
    } else {
      assert (p + [x])[1..] == p[1..] + [x];
      TransProductSnoc(sys, p[1..], x);
      var a := sys.tp(p[0], p[1]);
      var b := TransProduct(sys, p[1..]);
      var c := sys.tp(p[|p| - 1], x);
      assert a * (b * c) == (a * b) * c;
    }
  }

  /** The sum of `tp(s, t)` over the states `t` of `ts`, one term per list entry. */
  function SumTp(sys: System, s: nat, ts: seq<nat>): real {
    if ts == [] then 0.0 else SumTp(sys, s, ts[..|ts| - 1]) + sys.tp(s, ts[|ts| - 1])
  }

  /** The probabilities along every reachable state's successor list sum to one. */
  ghost predicate Stochastic(sys: System) {
    forall s: nat :: s < |sys.reach| ==> SumTp(sys, s, sys.succ(s)) == 1.0
  }

  /** The sum of the transition products of the paths `ps`. */
  function ProductSum(sys: System, ps: seq<seq<nat>>): real
    decreases |ps|
  {
    if ps == [] then 0.0 else TransProduct(sys, ps[0]) + ProductSum(sys, ps[1..])
  }

  lemma {:induction false} ProductSumAppend(sys: System, a: seq<seq<nat>>, b: seq<seq<nat>>)
    ensures ProductSum(sys, a + b) == ProductSum(sys, a) + ProductSum(sys, b)
    decreases |a|
  {
    if a == [] {
      assert a + b == b;
    } else {
      assert (a + b)[1..] == a[1..] + b;
      ProductSumAppend(sys, a[1..], b);
    }
  }

  /** The sum of the products of `prefix + [t]` over the states `t` of `ts`. */
  function ExtSum(sys: System, prefix: seq<nat>, ts: seq<nat>): real {
    if ts == [] then 0.0 else ExtSum(sys, prefix, ts[..|ts| - 1]) + TransProduct(sys, prefix + [ts[|ts| - 1]])
  }

  /** Extending `prefix` by each state of `ts` gives the product of `prefix` times the step sum of `ts`. */
  lemma {:induction false} ExtSumFactor(sys: System, prefix: seq<nat>, ts: seq<nat>)
    requires |prefix| > 0
    ensures ExtSum(sys, prefix, ts) == TransProduct(sys, prefix) * SumTp(sys, prefix[|prefix| - 1], ts)
    decreases |ts|
  {
    if ts != [] {
      ExtSumFactor(sys, prefix, ts[..|ts| - 1]);
      TransProductSnoc(sys, prefix, ts[|ts| - 1]);
      MulSumTp(sys, TransProduct(sys, prefix), prefix[|prefix| - 1], ts);
    } else {
      MulBy(TransProduct(sys, prefix), SumTp(sys, prefix[|prefix| - 1], ts), 0.0);
    }
  }

  /** Multiplying the step sum of `ts` by `c` splits off its last term. */
  lemma MulSumTp(sys: System, c: real, s: nat, ts: seq<nat>)
    requires ts != []
    ensures c * SumTp(sys, s, ts) == c * SumTp(sys, s, ts[..|ts| - 1]) + c * sys.tp(s, ts[|ts| - 1])
  {
  }

  /** A factor known to equal the constant `k` can be replaced by it. */
  lemma MulBy(c: real, x: real, k: real)
    requires x == k
    ensures c * x == c * k
  {
  }
}
