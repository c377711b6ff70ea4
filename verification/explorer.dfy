/**
 * The explorer object: it holds the transition system, the prior mode, the
 * prior over secrets and the joint table Pr(output, secret) that the
 * exploration fills in.  Each reported path adds its probability to the entry
 * for the public output of its last state and the secret of its first state.
 */
module Explorer {
  import opened Wrappers
  import opened TransitionSystem
  import opened JointTable
  import opened Prior
  import opened BoundedExploration
  import opened UnboundedExploration

  /** The failure of the native transition-matrix build. */
  datatype ExploreError = OutOfMemory

  /** The list a stack holds, read from its top (the last element) to its bottom. */
  function Reverse<T>(s: seq<T>): seq<T> {
    if s == [] then [] else [s[|s| - 1]] + Reverse(s[..|s| - 1])
  }

  class ProbModelOutputExplorer {
    const sys: System
    const priorType: PriorKnowledgeType
    const priorKnowledge: map<string, real>
    var outSecretDist: Table

    /** The prior weight of state `s` is defined: a non-empty start set, or a prior entry for its secret. */
    predicate PriorCovers(s: nat)
      requires s < |sys.reach|
    {
      if priorType == Uniform then |sys.start| > 0 else sys.Secret(s) in priorKnowledge
    }

    /** Every initial state has a prior weight. */
    ghost predicate Valid() {
      && sys.Valid()
      && forall s :: s in sys.start ==> s < |sys.reach| && PriorCovers(s)
    }

    /** A path that can be priced: non-empty, over reachable states, starting where the prior is defined. */
    predicate PathOk(pa: seq<nat>) {
      |pa| > 0 && InRange(sys, pa) && PriorCovers(pa[0])
    }

    /** The prior weight of the initial state `s`. */
    function MuInit(s: nat): real
      requires s < |sys.reach| && PriorCovers(s)
    {
      if priorType == Uniform then 1.0 / (|sys.start| as real) else priorKnowledge[sys.Secret(s)]
    }

    /** The probability of a path, including the prior weight of its first state. */
    function PathProb(pa: seq<nat>): real
      requires PathOk(pa)
    {
      MuInit(pa[0]) * TransProduct(sys, pa)
    }

    /** The table after the path `pa` has been accounted for. */
    function AddPath(t: Table, pa: seq<nat>): Table
      requires PathOk(pa)
    {
      AddMass(t, sys.Output(pa[|pa| - 1]), sys.Secret(pa[0]), PathProb(pa))
    }

    /** Every path of `ps` can be priced. */
    predicate AllOk(ps: seq<seq<nat>>)
      decreases |ps|
    {
      ps == [] || (PathOk(ps[0]) && AllOk(ps[1..]))
    }

    lemma {:induction false} AllOkIff(ps: seq<seq<nat>>)
      ensures AllOk(ps) <==> forall p :: p in ps ==> PathOk(p)
      decreases |ps|
    {
      if ps != [] {
        AllOkIff(ps[1..]);
        assert forall p :: p in ps <==> p == ps[0] || p in ps[1..];
      }
    }

    /** The table after the paths `ps` have been accounted for, in order. */
    function HandleAll(t: Table, ps: seq<seq<nat>>): Table
      requires AllOk(ps)
      decreases |ps|
    {
      if ps == [] then t else HandleAll(AddPath(t, ps[0]), ps[1..])
    }

    /** The total probability of the paths of `ps` that end with output `o` and start with secret `h`. */
    function Contribution(ps: seq<seq<nat>>, o: string, h: string): real
      requires AllOk(ps)
      decreases |ps|
    {
      if ps == [] then 0.0
      else
        var p := ps[0];
        (if sys.Output(p[|p| - 1]) == o && sys.Secret(p[0]) == h then PathProb(p) else 0.0)
          + Contribution(ps[1..], o, h)
    }

    lemma {:induction false} HandleAllAppend(t: Table, a: seq<seq<nat>>, b: seq<seq<nat>>)
      requires AllOk(a) && AllOk(b)
      ensures AllOk(a + b)
      ensures HandleAll(t, a + b) == HandleAll(HandleAll(t, a), b)
      decreases |a|
    {
      if a != [] {
        assert (a + b)[1..] == a[1..] + b;
        HandleAllAppend(AddPath(t, a[0]), a[1..], b);
      } else {
        assert a + b == b;
      }
    }

    lemma HandleAllCons(t: Table, p: seq<nat>, ps: seq<seq<nat>>)
      requires PathOk(p) && AllOk(ps)
      ensures AllOk([p] + ps)
      ensures HandleAll(t, [p] + ps) == HandleAll(AddPath(t, p), ps)
    {
      assert ([p] + ps)[0] == p && ([p] + ps)[1..] == ps;
    }

    /**
     * Accounting for a sequence of paths adds to each entry exactly the
     * probability of the paths with that output and secret; an absent entry
     * counts as 0.
     */
    lemma {:induction false} MassAfterHandleAll(t: Table, ps: seq<seq<nat>>, o: string, h: string)
      requires AllOk(ps)
      ensures Mass(HandleAll(t, ps), o, h) == Mass(t, o, h) + Contribution(ps, o, h)
      decreases |ps|
    {
      if ps != [] {
        MassAfterHandleAll(AddPath(t, ps[0]), ps[1..], o, h);
      }
    }

    constructor (sys: System, priorType: PriorKnowledgeType, priorKnowledge: map<string, real>)
      ensures this.sys == sys && this.priorType == priorType && this.priorKnowledge == priorKnowledge
      ensures outSecretDist == map[]
    {
      this.sys := sys;
      this.priorType := priorType;
      this.priorKnowledge := priorKnowledge;
      outSecretDist := map[];
    }

    /**
     * Builds an explorer: without a distribution file the prior is uniform
     * over the initial states; with one, the prior is read from its lines and
     * any refusal of the file is the result.
     */
    static method Create(sys: System, initDistFile: Option<seq<string>>, parse: string -> Option<real>)
      returns (r: Result<ProbModelOutputExplorer, PriorError>)
      requires sys.Valid()
      ensures r.Success? ==> fresh(r.value) && r.value.sys == sys && r.value.outSecretDist == map[] && r.value.Valid()
      ensures initDistFile.None? ==>
                && r.Success?
                && r.value.priorType == Uniform
                && r.value.priorKnowledge.Keys == set h | h in StartSecrets(sys)
                && forall h :: h in r.value.priorKnowledge ==> r.value.priorKnowledge[h] == 1.0 / (|sys.start| as real)
      ensures initDistFile.Some? ==>
                match InitDistribution(StartSecrets(sys), initDistFile.value, parse)
                case Failure(e) => r == Failure(e)
                case Success(pk) => r.Success? && r.value.priorType == InitDistFile && r.value.priorKnowledge == pk
    {
      var secrets := StartSecrets(sys);
      if initDistFile.None? {
        var pk := UniformPriorKnowledge(sys);
        var e := new ProbModelOutputExplorer(sys, Uniform, pk);
        return Success(e);
      }
      var read := ReadInitDistribution(sys, initDistFile.value, parse);
      match read
      case Failure(err) =>
        return Failure(err);
      case Success(pk) =>
        ReadPriorCovers(sys, initDistFile.value, parse);
        var e := new ProbModelOutputExplorer(sys, InitDistFile, pk);
        assert forall s :: s in sys.start ==> s < |sys.reach| && sys.Secret(s) in pk by {
          forall s | s in sys.start ensures s < |sys.reach| && sys.Secret(s) in pk {
            var i :| 0 <= i < |sys.start| && sys.start[i] == s;
            assert secrets[i] in secrets;
          }
        }
        return Success(e);
    }

    /** A prior read from a file has an entry for the secret of every initial state. */
    static lemma ReadPriorCovers(sys: System, lines: seq<string>, parse: string -> Option<real>)
      requires sys.Valid()
      ensures InitDistribution(StartSecrets(sys), lines, parse).Success? ==>
                InitDistribution(StartSecrets(sys), lines, parse).value.Keys == set h | h in StartSecrets(sys)
    {
      var secrets := StartSecrets(sys);
      match ParseLines(lines, parse)
      case Failure(_) =>
        InitDistributionOfFailure(secrets, lines, parse);
      case Success(vs) =>
        InitDistributionOfValues(secrets, lines, parse, vs);
        if |vs| == |secrets| {
          ZipPriorShape(secrets, vs);
        }
    }

    /**
     * The probability of `path`: the product of the transition probabilities
     * along it, times the prior weight of its first state.
     */
    method Prob(path: seq<nat>) returns (p: real)
      requires PathOk(path)
      ensures p == PathProb(path)
      ensures |path| == 1 ==> p == MuInit(path[0])
      ensures priorType == Uniform ==> p == TransProduct(sys, path) / (|sys.start| as real)
    {
      var prob := 1.0;
      for i := 0 to |path| - 1
        invariant prob == TransProduct(sys, path[..i + 1])
      {
        assert path[..i + 2] == path[..i + 1] + [path[i + 1]];
        TransProductSnoc(sys, path[..i + 1], path[i + 1]);
        prob := prob * sys.tp(path[i], path[i + 1]);
      }
      assert path[..|path|] == path;
      var muInit: real;
      if priorType == Uniform {
        muInit := 1.0 / (|sys.start| as real);
      } else {
        muInit := priorKnowledge[sys.Secret(path[0])];
      }
      p := muInit * prob;
    }

    /**
     * Adds the probability of `pa` to the entry for the output of its last
     * state and the secret of its first state; every other entry is unchanged.
     */
    method HandlePath(pa: seq<nat>)
      requires PathOk(pa)
      modifies this
      ensures outSecretDist == AddPath(old(outSecretDist), pa)
      ensures forall o, h :: Mass(outSecretDist, o, h) ==
                Mass(old(outSecretDist), o, h)
                  + (if o == sys.Output(pa[|pa| - 1]) && h == sys.Secret(pa[0]) then PathProb(pa) else 0.0)
    {
      var probPa := Prob(pa);
      var finalState := pa[|pa| - 1];
      var output := sys.Output(finalState);
      var probs := if output in outSecretDist then outSecretDist[output] else map[];
      var startSt := pa[0];
      var secretStartSt := sys.Secret(startSt);
      probs := probs[secretStartSt := (if secretStartSt in probs then probs[secretStartSt] else 0.0) + probPa];
      outSecretDist := outSecretDist[output := probs];
    }

    /** Every bounded continuation of a path whose first state has a prior weight can be priced. */
    lemma BoundedPathsOk(prefix: seq<nat>, s: nat, bound: nat)
      requires sys.Valid() && InRange(sys, prefix) && s < |sys.reach| && |prefix| <= bound
      requires PriorCovers((prefix + [s])[0])
      ensures AllOk(BoundedPaths(sys, prefix, s, bound))
    {
      BoundedPathsShape(sys, prefix, s, bound);
      forall p | p in BoundedPaths(sys, prefix, s, bound) ensures PathOk(p) {
        assert p[0] == p[..|prefix| + 1][0];
      }
      AllOkIff(BoundedPaths(sys, prefix, s, bound));
    }

    /** Exploring the successors `ts` of the path `prefix` one more at a time. */
    lemma HandleBoundedStep(t: Table, prefix: seq<nat>, ts: seq<nat>, i: nat, bound: nat)
      requires sys.Valid() && InRange(sys, prefix) && InRange(sys, ts) && 0 < |prefix| <= bound && i < |ts|
      requires PriorCovers(prefix[0]) && AllOk(BoundedFrom(sys, prefix, ts[..i], bound))
      ensures ts[i] < |sys.reach|
      ensures AllOk(BoundedPaths(sys, prefix, ts[i], bound))
      ensures AllOk(BoundedFrom(sys, prefix, ts[..i + 1], bound))
      ensures HandleAll(t, BoundedFrom(sys, prefix, ts[..i + 1], bound))
                == HandleAll(HandleAll(t, BoundedFrom(sys, prefix, ts[..i], bound)), BoundedPaths(sys, prefix, ts[i], bound))
    {
      assert ts[..i + 1][..i] == ts[..i];
      assert (prefix[..|prefix| - 1] + [prefix[|prefix| - 1]])[0] == prefix[0];
      assert prefix[..|prefix| - 1] + [prefix[|prefix| - 1]] == prefix;
      BoundedPathsOk(prefix, ts[i], bound);
      HandleAllAppend(t, BoundedFrom(sys, prefix, ts[..i], bound), BoundedPaths(sys, prefix, ts[i], bound));
    }

    /**
     * Extends the path held in `path[..pathLength]` with `s` and reports every
     * continuation of `boundedStep + 1` states, in successor order.
     */
    method ExplorePathsRecur(s: nat, path: array<nat>, pathLength: nat, boundedStep: nat, ghost prefix: seq<nat>)
      requires sys.Valid()
      requires pathLength <= boundedStep < path.Length && path[..pathLength] == prefix
      requires InRange(sys, prefix) && s < |sys.reach| && PriorCovers((prefix + [s])[0])
      modifies this, path
      ensures path[..pathLength] == prefix
      ensures AllOk(BoundedPaths(sys, prefix, s, boundedStep))
      ensures outSecretDist == HandleAll(old(outSecretDist), BoundedPaths(sys, prefix, s, boundedStep))
      decreases boundedStep - pathLength
    {
      ghost var t0 := outSecretDist;
      BoundedPathsOk(prefix, s, boundedStep);
      path[pathLength] := s;
      var len := pathLength + 1;
      ghost var next := prefix + [s];
      assert path[..len] == next;
      if len == boundedStep + 1 {
        var pa: seq<nat> := [];
        for i := 0 to len
          invariant pa == path[..i]
        {
          pa := pa + [path[i]];
        }
        HandlePath(pa);
        assert HandleAll(t0, [pa]) == AddPath(t0, pa);
      } else {
        SuccInRange(sys, s);
        var succs := sys.succ(s);
        assert next[0] == (prefix + [s])[0];
        for i := 0 to |succs|
          invariant path[..len] == next
          invariant AllOk(BoundedFrom(sys, next, succs[..i], boundedStep))
          invariant outSecretDist == HandleAll(t0, BoundedFrom(sys, next, succs[..i], boundedStep))
        {
          HandleBoundedStep(t0, next, succs, i, boundedStep);
          ExplorePathsRecur(succs[i], path, len, boundedStep, next);
        }
        assert succs[..|succs|] == succs;
      }
    }

    /**
     * Reports the parent chain that ends at `curr`: the states are pushed from
     * `curr` up to the sentinel, then popped into the path.
     */
    method AddTopToBottomPath(curr: nat, parent: ParentMap, ghost rank: nat -> nat, ghost initial: nat)
      requires Acyclic(sys, rank) && ParentOk(sys, rank, initial, parent) && sys.Valid()
      requires curr in parent && initial < |sys.reach| && PriorCovers(initial)
      modifies this
      ensures ChainsEnd(parent, rank, rank(initial))
      ensures PathOk(Chain(parent, rank, rank(initial), curr))
      ensures outSecretDist == AddPath(old(outSecretDist), Chain(parent, rank, rank(initial), curr))
    {
      ChainFromInitial(sys, rank, initial, parent, curr);
      ghost var top := rank(initial);
      ghost var chain := Chain(parent, rank, top, curr);
      var stk: seq<nat> := [];
      var c: int := curr;
      while c != -1
        invariant outSecretDist == old(outSecretDist)
        invariant c == -1 || (0 <= c && c as nat in parent)
        invariant chain == (if c == -1 then [] else Chain(parent, rank, top, c as nat)) + Reverse(stk)
        decreases if c < 0 then 0 else top - rank(c as nat) + 1
      {
        ChainUp(parent, rank, top, c as nat, stk);
        stk := stk + [c as nat];
        c := parent[c as nat];
      }
      var pa: seq<nat> := [];
      while stk != []
        invariant outSecretDist == old(outSecretDist)
        invariant pa + Reverse(stk) == chain
        decreases |stk|
      {
        var x := stk[|stk| - 1];
        stk := stk[..|stk| - 1];
        pa := pa + [x];
      }
      assert pa == chain;
      HandlePath(pa);
    }

    /** One more state pushed while climbing the parent chain. */
    static lemma ChainUp(parent: ParentMap, rank: nat -> nat, top: nat, c: nat, stk: seq<nat>)
      requires c in parent && ChainsEnd(parent, rank, top)
      ensures rank(c) <= top
      ensures parent[c] == -1 || (0 <= parent[c] && parent[c] as nat in parent && rank(c) < rank(parent[c] as nat) <= top)
      ensures Chain(parent, rank, top, c) + Reverse(stk) ==
                (if parent[c] == -1 then [] else Chain(parent, rank, top, parent[c] as nat)) + Reverse(stk + [c])
    {
      assert LinkOk(parent, rank, top, c);
      if parent[c] != -1 {
        assert LinkOk(parent, rank, top, parent[c] as nat);
      }
      assert Reverse(stk + [c]) == [c] + Reverse(stk) by {
        assert (stk + [c])[..|stk|] == stk;
      }
    }

    /** Every path still to be reported by a traversal from a start with a prior weight can be priced. */
    lemma PendingOk(rank: nat -> nat, initial: nat, stack: seq<nat>, parent: ParentMap)
      requires TraversalInv(sys, rank, initial, stack, parent) && initial < |sys.reach| && PriorCovers(initial)
      ensures AllOk(Pending(sys, rank, initial, stack, parent))
    {
      PendingShape(sys, rank, initial, stack, parent);
      AllOkIff(Pending(sys, rank, initial, stack, parent));
    }

    /**
     * Depth-first traversal from `initial` with an explicit stack and parent
     * map, reporting the parent chain of every final state it pops.
     */
    method ExplorePathsNonRecur(initial: nat, ghost rank: nat -> nat)
      requires sys.Valid() && Acyclic(sys, rank) && initial < |sys.reach| && PriorCovers(initial)
      modifies this
      ensures AllOk(UnboundedPaths(sys, rank, initial))
      ensures outSecretDist == HandleAll(old(outSecretDist), UnboundedPaths(sys, rank, initial))
    {
      var nodeStack: seq<nat> := [initial];
      var parent: ParentMap := map[initial := -1];
      InitialInv(sys, rank, initial);
      PendingOk(rank, initial, nodeStack, parent);
      while nodeStack != []
        invariant TraversalInv(sys, rank, initial, nodeStack, parent)
        invariant AllOk(Pending(sys, rank, initial, nodeStack, parent))
        invariant HandleAll(outSecretDist, Pending(sys, rank, initial, nodeStack, parent))
                    == HandleAll(old(outSecretDist), UnboundedPaths(sys, rank, initial))
        decreases StackWeight(sys, rank, nodeStack)
      {
        ghost var stack0 := nodeStack;
        ghost var parent0 := parent;
        var current := nodeStack[|nodeStack| - 1];
        nodeStack := nodeStack[..|nodeStack| - 1];
        if sys.IsFinal(current) {
          PendingFinal(sys, rank, initial, stack0, parent);
          ghost var t := outSecretDist;
          AddTopToBottomPath(current, parent, rank, initial);
          PendingOk(rank, initial, nodeStack, parent);
          HandleAllCons(t, Chain(parent, rank, rank(initial), current), Pending(sys, rank, initial, nodeStack, parent));
        } else {
          PendingStep(sys, rank, initial, stack0, parent);
          nodeStack, parent := PushSuccessors(sys.succ(current), current, nodeStack, parent);
          PendingOk(rank, initial, nodeStack, parent);
        }
      }
    }

    /** The paths of a traversal from one initial state after those of the earlier ones. */
    lemma HandleUnboundedStep(t: Table, rank: nat -> nat, i: nat)
      requires Valid() && Acyclic(sys, rank) && i < |sys.start|
      requires AllOk(AllUnbounded(sys, rank, sys.start[..i]))
      ensures InRange(sys, sys.start[..i + 1])
      ensures AllOk(AllUnbounded(sys, rank, sys.start[..i + 1]))
      ensures AllOk(UnboundedPaths(sys, rank, sys.start[i]))
      ensures HandleAll(t, AllUnbounded(sys, rank, sys.start[..i + 1]))
                == HandleAll(HandleAll(t, AllUnbounded(sys, rank, sys.start[..i])), UnboundedPaths(sys, rank, sys.start[i]))
    {
      var s := sys.start[i];
      assert sys.start[..i + 1][..i] == sys.start[..i];
      assert s in sys.start;
      InitialInv(sys, rank, s);
      PendingOk(rank, s, [s], map[s := -1]);
      HandleAllAppend(t, AllUnbounded(sys, rank, sys.start[..i]), UnboundedPaths(sys, rank, s));
    }

    /** The paths of the bounded search from one initial state after those of the earlier ones. */
    lemma HandleBoundedStart(t: Table, bound: nat, i: nat)
      requires Valid() && i < |sys.start|
      requires AllOk(AllBounded(sys, sys.start[..i], bound))
      ensures AllOk(AllBounded(sys, sys.start[..i + 1], bound))
      ensures AllOk(BoundedPaths(sys, [], sys.start[i], bound))
      ensures HandleAll(t, AllBounded(sys, sys.start[..i + 1], bound))
                == HandleAll(HandleAll(t, AllBounded(sys, sys.start[..i], bound)), BoundedPaths(sys, [], sys.start[i], bound))
    {
      var s := sys.start[i];
      assert sys.start[..i + 1][..i] == sys.start[..i];
      assert s in sys.start;
      assert ([] + [s])[0] == s;
      BoundedPathsOk([], s, bound);
      HandleAllAppend(t, AllBounded(sys, sys.start[..i], bound), BoundedPaths(sys, [], s, bound));
    }

    /** The sum of the probabilities of the paths of `ps`. */
    function TotalProb(ps: seq<seq<nat>>): real
      requires AllOk(ps)
      decreases |ps|
    {
      if ps == [] then 0.0 else PathProb(ps[0]) + TotalProb(ps[1..])
    }

    lemma {:induction false} TotalProbAppend(a: seq<seq<nat>>, b: seq<seq<nat>>)
      requires AllOk(a) && AllOk(b)
      ensures AllOk(a + b)
      ensures TotalProb(a + b) == TotalProb(a) + TotalProb(b)
      decreases |a|
    {
      HandleAllAppend(map[], a, b);
      if a == [] {
        assert a + b == b;
      } else {
        assert (a + b)[1..] == a[1..] + b;
        TotalProbAppend(a[1..], b);
      }
    }

    /** Paths that all start at `s` have the prior weight of `s` times the sum of their transition products. */
    lemma {:induction false} TotalProbFrom(ps: seq<seq<nat>>, s: nat)
      requires AllOk(ps) && s < |sys.reach| && PriorCovers(s)
      requires forall p :: p in ps ==> |p| > 0 && p[0] == s
      ensures TotalProb(ps) == MuInit(s) * ProductSum(sys, ps)
      decreases |ps|
    {
      if ps != [] {
        assert ps[0] in ps;
        assert forall p :: p in ps[1..] ==> p in ps;
        TotalProbFrom(ps[1..], s);
        var m := MuInit(s);
        assert m * TransProduct(sys, ps[0]) + m * ProductSum(sys, ps[1..]) ==
               m * (TransProduct(sys, ps[0]) + ProductSum(sys, ps[1..]));
      }
    }

    /** The prior weights of the states of `starts`, summed. */
    function PriorMass(starts: seq<nat>): real
      requires forall s :: s in starts ==> s < |sys.reach| && PriorCovers(s)
    {
      if starts == [] then 0.0
      else
        var init := starts[..|starts| - 1];
        assert forall s :: s in init ==> s in starts;
        assert starts[|starts| - 1] in starts;
        PriorMass(init) + MuInit(starts[|starts| - 1])
    }

    /**
     * When the probabilities along every successor list sum to one, the
     * bounded exploration from `starts` reports paths whose probabilities add
     * up to the prior weight of `starts`.
     */
    lemma {:induction false} BoundedTotalProb(starts: seq<nat>, bound: nat)
      requires sys.Valid() && Stochastic(sys)
      requires forall s :: s in starts ==> s < |sys.reach| && PriorCovers(s)
      ensures AllOk(AllBounded(sys, starts, bound))
      ensures TotalProb(AllBounded(sys, starts, bound)) == PriorMass(starts)
    {
      if starts != [] {
        var init := starts[..|starts| - 1];
        var s := starts[|starts| - 1];
        assert forall x :: x in init ==> x in starts;
        assert s in starts;
        BoundedTotalProb(init, bound);
        assert ([] + [s])[0] == s && [] + [s] == [s];
        BoundedPathsOk([], s, bound);
        BoundedPathsShape(sys, [], s, bound);
        forall p | p in BoundedPaths(sys, [], s, bound) ensures |p| > 0 && p[0] == s {
          assert p[0] == p[..1][0];
        }
        TotalProbFrom(BoundedPaths(sys, [], s, bound), s);
        BoundedPathsMass(sys, [], s, bound);
        TotalProbAppend(AllBounded(sys, init, bound), BoundedPaths(sys, [], s, bound));
      }
    }

    /** Under the uniform prior, every initial state weighs one over the number of initial states. */
    lemma {:induction false} UniformPriorMass(starts: seq<nat>)
      requires priorType == Uniform && |sys.start| > 0
      requires forall s :: s in starts ==> s < |sys.reach|
      ensures PriorMass(starts) == (|starts| as real) / (|sys.start| as real)
    {
      if starts != [] {
        var init := starts[..|starts| - 1];
        assert forall s :: s in init ==> s in starts;
        UniformPriorMass(init);
        var n := |sys.start| as real;
        assert (|init| as real) / n + 1.0 / n == (|init| as real + 1.0) / n;
      }
    }

    /**
     * With the uniform prior over a non-empty set of initial states and
     * probabilities along every successor list that sum to one, the paths of
     * the bounded exploration carry a total probability of exactly one.
     */
    lemma BoundedMassIsOne(bound: nat)
      requires Valid() && Stochastic(sys) && priorType == Uniform && |sys.start| > 0
      ensures AllOk(AllBounded(sys, sys.start, bound))
      ensures TotalProb(AllBounded(sys, sys.start, bound)) == 1.0
    {
      BoundedTotalProb(sys.start, bound);
      UniformPriorMass(sys.start);
    }

    /** Accounting for the paths `ps` raises the total of the table by exactly their total probability. */
    lemma {:induction false} TotalAfterHandleAll(t: Table, ps: seq<seq<nat>>)
      requires AllOk(ps)
      ensures TableTotal(HandleAll(t, ps)) == TableTotal(t) + TotalProb(ps)
      decreases |ps|
    {
      if ps != [] {
        var p := ps[0];
        AddMassTotal(t, sys.Output(p[|p| - 1]), sys.Secret(p[0]), PathProb(p));
        TotalAfterHandleAll(AddPath(t, p), ps[1..]);
      }
    }

    /**
     * Under the same conditions, the bounded exploration of every initial
     * state, started from an empty table, leaves entries that sum to one.
     */
    lemma BoundedTableIsOne(bound: nat)
      requires Valid() && Stochastic(sys) && priorType == Uniform && |sys.start| > 0
      ensures AllOk(AllBounded(sys, sys.start, bound))
      ensures TableTotal(HandleAll(map[], AllBounded(sys, sys.start, bound))) == 1.0
    {
      BoundedMassIsOne(bound);
      TotalAfterHandleAll(map[], AllBounded(sys, sys.start, bound));
      EmptyTotal();
    }

    /**
     * Explores the model: fails when the transition matrix cannot be built;
     * otherwise reports, from each initial state in turn, the walks of
     * `boundedStep` steps when `bounded`, and the paths to final states found
     * by the stack traversal when not.
     */
    method ExploreModel(matrixBuilt: bool, bounded: bool, boundedStep: nat, ghost rank: nat -> nat)
      returns (r: Result<(), ExploreError>)
      requires Valid()
      requires !bounded ==> Acyclic(sys, rank)
      modifies this
      ensures !matrixBuilt ==> r == Failure(OutOfMemory) && outSecretDist == old(outSecretDist)
      ensures matrixBuilt ==> r == Success(())
      ensures matrixBuilt && bounded ==>
                && AllOk(AllBounded(sys, sys.start, boundedStep))
                && outSecretDist == HandleAll(old(outSecretDist), AllBounded(sys, sys.start, boundedStep))
      ensures matrixBuilt && !bounded ==>
                && AllOk(AllUnbounded(sys, rank, sys.start))
                && outSecretDist == HandleAll(old(outSecretDist), AllUnbounded(sys, rank, sys.start))
    {
      if !matrixBuilt {
        return Failure(OutOfMemory);
      }
      ghost var t0 := outSecretDist;
      if bounded {
        var path := new nat[boundedStep + 2];
        for i := 0 to |sys.start|
          invariant AllOk(AllBounded(sys, sys.start[..i], boundedStep))
          invariant outSecretDist == HandleAll(t0, AllBounded(sys, sys.start[..i], boundedStep))
        {
          HandleBoundedStart(t0, boundedStep, i);
          ExplorePathsRecur(sys.start[i], path, 0, boundedStep, []);
        }
        assert sys.start[..|sys.start|] == sys.start;
      } else {
        for i := 0 to |sys.start|
          invariant AllOk(AllUnbounded(sys, rank, sys.start[..i]))
          invariant outSecretDist == HandleAll(t0, AllUnbounded(sys, rank, sys.start[..i]))
        {
          HandleUnboundedStep(t0, rank, i);
          assert sys.start[i] in sys.start;
          ExplorePathsNonRecur(sys.start[i], rank);
        }
        assert sys.start[..|sys.start|] == sys.start;
      }
      return Success(());
    }
  }
}
