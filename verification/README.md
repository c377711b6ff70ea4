# Output exploration of a probabilistic model

This project models the output explorer of PRISM-InLeak (`ProbModelOutputExplorer`), a quantitative
information-flow tool. The tool takes a probabilistic model with public (output) and secret
labels on its states and builds the joint distribution Pr(o, h) of the observable output and the
initial secret. It enumerates paths of the model from every initial state. Each path's
probability (the prior weight of its first state times the transition probabilities along it)
is added to the table entry for the public label of its last state and the secret label of its
first state.

The model has these parts:

- `TransitionSystem`: the explicit model. It holds the reachable states with their labels, the
  initial states, the successor lists and the transition probabilities.
- `JointTable`: the two-level map Pr(o, h) and its get-or-zero update.
- `Prior`: the prior over secrets. It is either uniform over the initial states, or read from the
  lines of a distribution file, which are trimmed, parsed, counted and checked to sum to 1 within
  0.001.
- `BoundedExploration`: the paths the bounded search reports, which are all walks of exactly
  `boundedStep` steps.
- `UnboundedExploration`: the paths the stack-and-parent-map traversal reports, with the
  invariant that justifies them and the measure that makes it terminate.
- `Explorer`: the explorer object as a class. Its table `outSecretDist` is updated in place by
  `HandlePath`, `ExplorePathsRecur` (over a path buffer `array`), `AddTopToBottomPath`,
  `ExplorePathsNonRecur` and `ExploreModel`. Each method is proved against the function that
  folds the reported paths into the table.
- `Scenarios`: two small systems worked out in full.

**The unbounded traversal has no visited check.** It pushes every successor other than the
popped state and overwrites that successor's parent (`ProbModelOutputExplorer.java:161-165`).
A final state is therefore popped once per walk from the initial state that takes no self-step,
a successor listed twice counting as two walks, and each time the path reported for it is its most
recent parent chain. `UnboundedExploration.UnboundedCount` proves this count: the number of
reported paths is `FinalCount(initial)`, one for a final state and otherwise the sum over the
successors other than the state itself. Walks that take a self-loop, such as 0→1→1 when state 1
is final with a self-loop, are not counted (`Scenarios.DiamondFinalCount`). `UnboundedExploration.UnboundedReachesExactly`
proves that the final states at the ends of the reported paths are exactly those reachable
without self-steps. `Scenarios.DiamondUnboundedOverwritesParent` proves that the paths themselves
can be wrong: on a three-state system the path 0→2→1 is reported twice and 0→1 never.
`Scenarios.DiamondUnboundedMass` proves that the system's transitions sum to one at every state,
yet the reported paths carry a total product of 1.4. `Scenarios.DiamondUnboundedTable`
shows the effect on the table: under the uniform prior the traversal leaves the single entry
("y", "h0") at 1.4, so the table's entries sum to more than one. The bounded search loses no mass:
with probabilities that sum to one along every successor list and a uniform prior, its paths carry a
total probability of exactly one (`Explorer.ProbModelOutputExplorer.BoundedMassIsOne`), and the
entries of a table filled from empty sum to exactly one (`Explorer.ProbModelOutputExplorer.BoundedTableIsOne`).
`JointTable.TableTotal` sums the entries over their keys in an arbitrary order, and
`Explorer.ProbModelOutputExplorer.TotalAfterHandleAll` proves that handling paths raises it by their total probability.
`Scenarios.CycleBoundedThreeSteps` proves the two-state cycle example: with three steps, exactly
one path of four states is reported, although no state is final.

## Model

| member | source | states |
|---|---|---|
| JointTable.AddMass | prism-leak/src/prismfinalleak/ProbModelOutputExplorer.java:209-213 | adding p to (o, h) raises exactly that entry's mass by p; every other entry keeps its mass; outer keys gain o, inner keys gain h, other inner maps are untouched |
| JointTable.TableTotal | prism-leak/src/prismfinalleak/ProbModelOutputExplorer.java:209-213 | definition: the sum of the masses of all (o, h) entries of the table, the keys taken in an arbitrary order |
| JointTable.SumValuesRemove | prism-leak/src/prismfinalleak/ProbModelOutputExplorer.java:209-213 | the sum of a map's values does not depend on the order of its keys: any key can be taken first |
| JointTable.SumValuesUpdate | prism-leak/src/prismfinalleak/ProbModelOutputExplorer.java:212 | setting one key to v changes the sum of a map's values by v minus the old value, zero when the key is absent |
| JointTable.AddMassTotal | prism-leak/src/prismfinalleak/ProbModelOutputExplorer.java:209-213 | adding p to one entry raises the table's total by exactly p |
| TransitionSystem.System.IsFinal | prism-leak/src/prismfinalleak/ProbModelOutputExplorer.java:249-254 | definition: a state is final when it has no successor other than, possibly, itself |
| TransitionSystem.TransProduct | prism-leak/src/prismfinalleak/ProbModelOutputExplorer.java:271-273 | definition: the product of the transition probabilities of consecutive states of a path |
| TransitionSystem.ProductSumAppend | prism-leak/src/prismfinalleak/ProbModelOutputExplorer.java:203-216 | the total transition product of two runs of paths is the sum of their totals |
| TransitionSystem.ExtSumFactor | prism-leak/src/prismfinalleak/ProbModelOutputExplorer.java:271-273 | extending a prefix by each state of a list gives a total product equal to the prefix's product times the sum of the step probabilities to those states |
| TransitionSystem.TransProductSnoc | prism-leak/src/prismfinalleak/ProbModelOutputExplorer.java:271-273 | extending a path by one state multiplies its transition product by that step's probability |
| Prior.StartSecrets | prism-leak/src/prismfinalleak/ProbModelOutputExplorer.java:347-349 | one secret per initial state, in order, each the secret label of that state |
| Prior.UniformPriorKnowledge | prism-leak/src/prismfinalleak/ProbModelOutputExplorer.java:343-352 | the keys are exactly the secrets of the initial states, each mapped to 1 / number of initial states |
| Prior.Trim | prism-leak/src/prismfinalleak/ProbModelOutputExplorer.java:305 | definition: the line without its leading and trailing characters at or below U+0020 |
| Prior.NonBlank | prism-leak/src/prismfinalleak/ProbModelOutputExplorer.java:304-306 | definition: the trimmed lines that are not empty, in order |
| Prior.ParseLines | prism-leak/src/prismfinalleak/ProbModelOutputExplorer.java:303-312 | definition: the parsed values of the non-blank lines in order, or the 1-based number of the first line the parser rejects |
| Prior.ZipPrior | prism-leak/src/prismfinalleak/ProbModelOutputExplorer.java:323-327 | definition: each secret paired with the value at its position, a later secret overwriting an earlier equal one |
| Prior.InitDistribution | prism-leak/src/prismfinalleak/ProbModelOutputExplorer.java:303-327 | definition: the format error, then the count check, then the sum check, then the pairing, in the order the source applies them |
| Prior.TrimEmptyIffBlank | prism-leak/src/prismfinalleak/ProbModelOutputExplorer.java:305-306 | a trimmed line is empty if and only if every character is at most U+0020 |
| Prior.ParseLinesFailure | prism-leak/src/prismfinalleak/ProbModelOutputExplorer.java:303-312 | a reported line number is the 1-based number of the first non-blank line the number parser rejects |
| Prior.ParseLinesOk | prism-leak/src/prismfinalleak/ProbModelOutputExplorer.java:304-312 | parsing succeeds if and only if no line is unparsable |
| Prior.ParseLinesValues | prism-leak/src/prismfinalleak/ProbModelOutputExplorer.java:304-310 | on success there is one value per non-blank line, and the k-th is the parse of the k-th trimmed non-blank line |
| Prior.ZipPriorShape | prism-leak/src/prismfinalleak/ProbModelOutputExplorer.java:323-327 | pairing secrets with values by position gives exactly the secrets as keys, and a secret not repeated later gets the value at its position |
| Prior.ReadInitDistribution | prism-leak/src/prismfinalleak/ProbModelOutputExplorer.java:288-337 | the line loop, count check, sum check and pairing loop yield exactly InitDistribution of the initial secrets |
| Prior.InitDistributionFormatError | prism-leak/src/prismfinalleak/ProbModelOutputExplorer.java:332-334 | the file fails with FormatError(n) if and only if line n is the first unparsable line |
| Prior.InitDistributionCountChecked | prism-leak/src/prismfinalleak/ProbModelOutputExplorer.java:316-318 | when every line parses, the file fails with CountMismatch(number of initial states) if and only if the number of non-blank lines differs from it |
| Prior.InitDistributionAccepted | prism-leak/src/prismfinalleak/ProbModelOutputExplorer.java:320-327 | with one value per initial state, the file fails with NormalizationError if and only if the sum misses 1 by more than 0.001; otherwise the keys are the secrets and each secret gets the value of the last initial state that carries it |
| BoundedExploration.BoundedPaths | prism-leak/src/prismfinalleak/ProbModelOutputExplorer.java:107-127 | definition: the reported paths once a state is appended to the buffer: the buffer itself at boundedStep + 1 states, else the paths through each successor in list order |
| BoundedExploration.BoundedFrom | prism-leak/src/prismfinalleak/ProbModelOutputExplorer.java:125-126 | definition: the paths through each state of a successor list, one after the other |
| BoundedExploration.AllBounded | prism-leak/src/prismfinalleak/ProbModelOutputExplorer.java:86-91 | definition: the bounded paths of each initial state, in the order of the initial states |
| BoundedExploration.BoundedPathsShape | prism-leak/src/prismfinalleak/ProbModelOutputExplorer.java:107-127 | every path reported below a prefix has boundedStep + 1 states, extends the prefix and the new state, stays among reachable states and follows successor lists |
| BoundedExploration.BoundedFromShape | prism-leak/src/prismfinalleak/ProbModelOutputExplorer.java:125-126 | every path reported through a list of successors extends the prefix with one of them and follows successor lists |
| BoundedExploration.BoundedPathsComplete | prism-leak/src/prismfinalleak/ProbModelOutputExplorer.java:107-127 | every walk of the right length that extends the prefix is reported |
| BoundedExploration.BoundedPathsExactly | prism-leak/src/prismfinalleak/ProbModelOutputExplorer.java:107-127 | from one initial state, a path is reported if and only if it is a walk of boundedStep + 1 states starting there |
| BoundedExploration.AllBoundedExactly | prism-leak/src/prismfinalleak/ProbModelOutputExplorer.java:86-91 | bounded exploration reports a path if and only if it is a walk of boundedStep + 1 states from an initial state |
| BoundedExploration.BoundedPathsMass | prism-leak/src/prismfinalleak/ProbModelOutputExplorer.java:107-127 | when the probabilities along every successor list sum to one, the transition products of the paths reported below a prefix add up to the prefix's own product |
| BoundedExploration.BoundedFromMass | prism-leak/src/prismfinalleak/ProbModelOutputExplorer.java:125-126 | the paths through a successor list add up, in transition product, to the prefix extended by each of those successors |
| BoundedExploration.AllBoundedMass | prism-leak/src/prismfinalleak/ProbModelOutputExplorer.java:86-91 | under the same condition, the bounded paths of the initial states have a total transition product equal to the number of initial states |
| UnboundedExploration.NonSelf | prism-leak/src/prismfinalleak/ProbModelOutputExplorer.java:161-166 | the pushed states are exactly the successors other than the popped state |
| UnboundedExploration.Reparent | prism-leak/src/prismfinalleak/ProbModelOutputExplorer.java:161-166 | the parent map gains exactly the other successors as keys, each with the popped state as parent; every other entry is unchanged |
| UnboundedExploration.PushSuccessors | prism-leak/src/prismfinalleak/ProbModelOutputExplorer.java:161-166 | the push loop appends NonSelf of the successors to the stack and yields Reparent of the parent map |
| UnboundedExploration.ChildWeightIsPushed | prism-leak/src/prismfinalleak/ProbModelOutputExplorer.java:161-166 | the weight of the pushed states is the popped state's weight minus one, which bounds the traversal |
| UnboundedExploration.Chain | prism-leak/src/prismfinalleak/ProbModelOutputExplorer.java:179-191 | definition: the parent chain that ends at a key, read from the state whose parent is -1 down to the key |
| UnboundedExploration.Pending | prism-leak/src/prismfinalleak/ProbModelOutputExplorer.java:149-167 | definition: the paths still to be reported from a stack and parent map: pop the top, report its chain if it is final, else push its other successors and re-parent them |
| UnboundedExploration.UnboundedPaths | prism-leak/src/prismfinalleak/ProbModelOutputExplorer.java:149-167 | definition: Pending from the stack holding `initial` and the map sending `initial` to -1 |
| UnboundedExploration.AllUnbounded | prism-leak/src/prismfinalleak/ProbModelOutputExplorer.java:92-94 | definition: the unbounded paths of each initial state, in the order of the initial states |
| UnboundedExploration.ChainShape | prism-leak/src/prismfinalleak/ProbModelOutputExplorer.java:179-183 | the parent chain of k ends at k, starts at the state whose parent is -1, and each state on it is the recorded parent of the next |
| UnboundedExploration.ChainFromInitial | prism-leak/src/prismfinalleak/ProbModelOutputExplorer.java:174-191 | in a traversal from `initial`, the chain of any key is a walk from `initial` to it without self-steps |
| UnboundedExploration.ReparentOk | prism-leak/src/prismfinalleak/ProbModelOutputExplorer.java:161-166 | overwriting parents of a popped state's successors keeps every key's parent a state with a transition to it |
| UnboundedExploration.PopPreservesInv | prism-leak/src/prismfinalleak/ProbModelOutputExplorer.java:152-157 | popping a final state keeps the traversal invariant, and its chain is defined |
| UnboundedExploration.StepPreservesInv | prism-leak/src/prismfinalleak/ProbModelOutputExplorer.java:152-166 | popping a non-final state and pushing its other successors keeps the invariant and lowers the stack weight by exactly one |
| UnboundedExploration.PendingShape | prism-leak/src/prismfinalleak/ProbModelOutputExplorer.java:134-168 | every reported path is a walk from `initial` to a final state without self-steps |
| UnboundedExploration.LeavesNonFinal | prism-leak/src/prismfinalleak/ProbModelOutputExplorer.java:249-254 | a walk without self-steps that takes a step leaves a state that is not final |
| UnboundedExploration.PendingReaches | prism-leak/src/prismfinalleak/ProbModelOutputExplorer.java:134-168 | the last state of any walk without self-steps from a state on the stack to a final state ends some path still to be reported |
| UnboundedExploration.ReachesPopFinal | prism-leak/src/prismfinalleak/ProbModelOutputExplorer.java:155-156 | the same when the popped state is final: the walk is that state alone, whose chain is reported now, or starts lower on the stack |
| UnboundedExploration.ReachesPopStep | prism-leak/src/prismfinalleak/ProbModelOutputExplorer.java:160-166 | the same when the popped state is not final: a walk from it continues from one of the successors pushed now |
| UnboundedExploration.UnboundedReachesExactly | prism-leak/src/prismfinalleak/ProbModelOutputExplorer.java:134-168 | a state ends some path reported from `initial` if and only if some walk without self-steps leads from `initial` to it and it is final |
| UnboundedExploration.FinalCount | prism-leak/src/prismfinalleak/ProbModelOutputExplorer.java:149-166 | definition: the number of walks without self-steps from a state to a final state, one for a final state and otherwise the counts of the successors other than the state itself, duplicates counted twice |
| UnboundedExploration.ChildFinalCountIsPushed | prism-leak/src/prismfinalleak/ProbModelOutputExplorer.java:161-165 | the successors pushed for a popped state carry together the count of its children |
| UnboundedExploration.PendingCount | prism-leak/src/prismfinalleak/ProbModelOutputExplorer.java:149-166 | a traversal with a given stack still reports exactly as many paths as the summed counts of the stacked states |
| UnboundedExploration.UnboundedCount | prism-leak/src/prismfinalleak/ProbModelOutputExplorer.java:139-166 | from an initial state, the traversal reports exactly FinalCount(initial) paths |
| UnboundedExploration.FinalCountPositive | prism-leak/src/prismfinalleak/ProbModelOutputExplorer.java:139-166 | that count is positive if and only if some walk without self-steps reaches a final state |
| UnboundedExploration.AllUnboundedShape | prism-leak/src/prismfinalleak/ProbModelOutputExplorer.java:92-94 | every path of the unbounded exploration starts at an initial state and is such a walk to a final state |
| UnboundedExploration.AllUnboundedReachesExactly | prism-leak/src/prismfinalleak/ProbModelOutputExplorer.java:92-94 | a state ends some path of the unbounded exploration if and only if it is final and some walk without self-steps leads to it from an initial state |
| Explorer.ProbModelOutputExplorer.constructor | prism-leak/src/prismfinalleak/ProbModelOutputExplorer.java:48-72 | the explorer holds the system and the prior, with an empty table |
| Explorer.ProbModelOutputExplorer.Create | prism-leak/src/prismfinalleak/ProbModelOutputExplorer.java:55-62 | without a file the prior is uniform over the initial secrets; with one it is the file's distribution or its error; every initial state then has a prior weight |
| Explorer.ProbModelOutputExplorer.MuInit | prism-leak/src/prismfinalleak/ProbModelOutputExplorer.java:275-281 | definition: one over the number of initial states for a uniform prior, else the prior entry of the first state's secret |
| Explorer.ProbModelOutputExplorer.PathProb | prism-leak/src/prismfinalleak/ProbModelOutputExplorer.java:269-283 | definition: the prior weight of the first state times the transition product of the path |
| Explorer.ProbModelOutputExplorer.AddPath | prism-leak/src/prismfinalleak/ProbModelOutputExplorer.java:203-216 | definition: the table with the path's probability added at (output of the last state, secret of the first state) |
| Explorer.ProbModelOutputExplorer.HandleAll | prism-leak/src/prismfinalleak/ProbModelOutputExplorer.java:203-216 | definition: the table after each path of a sequence has been added, in order |
| Explorer.ProbModelOutputExplorer.Prob | prism-leak/src/prismfinalleak/ProbModelOutputExplorer.java:269-283 | the product of the transitions along the path times the prior weight of its first state; for a uniform prior the product over the number of initial states |
| Explorer.ProbModelOutputExplorer.HandlePath | prism-leak/src/prismfinalleak/ProbModelOutputExplorer.java:203-216 | the entry for (output of the last state, secret of the first state) grows by the path's probability, and every other entry is unchanged |
| Explorer.ProbModelOutputExplorer.MassAfterHandleAll | prism-leak/src/prismfinalleak/ProbModelOutputExplorer.java:203-216 | after a sequence of paths, each entry has grown by exactly the probability of the paths with that output and secret |
| Explorer.ProbModelOutputExplorer.HandleAllAppend | prism-leak/src/prismfinalleak/ProbModelOutputExplorer.java:89-94 | handling two runs of paths one after the other equals handling their concatenation |
| Explorer.ProbModelOutputExplorer.TotalProbAppend | prism-leak/src/prismfinalleak/ProbModelOutputExplorer.java:269-283 | the total probability of two runs of paths is the sum of their totals |
| Explorer.ProbModelOutputExplorer.TotalProbFrom | prism-leak/src/prismfinalleak/ProbModelOutputExplorer.java:269-283 | paths that all start at one state have the prior weight of that state times their total transition product |
| Explorer.ProbModelOutputExplorer.UniformPriorMass | prism-leak/src/prismfinalleak/ProbModelOutputExplorer.java:276-277 | under the uniform prior, the weights of k initial states sum to k over the number of initial states |
| Explorer.ProbModelOutputExplorer.BoundedTotalProb | prism-leak/src/prismfinalleak/ProbModelOutputExplorer.java:86-91 | when the probabilities along every successor list sum to one, the bounded paths from a list of initial states carry the sum of their prior weights |
| Explorer.ProbModelOutputExplorer.BoundedMassIsOne | prism-leak/src/prismfinalleak/ProbModelOutputExplorer.java:86-91 | with the uniform prior over a non-empty set of initial states and such probabilities, the bounded paths carry a total probability of exactly one |
| Explorer.ProbModelOutputExplorer.TotalAfterHandleAll | prism-leak/src/prismfinalleak/ProbModelOutputExplorer.java:203-216 | handling a sequence of paths raises the table's total by exactly the paths' total probability |
| Explorer.ProbModelOutputExplorer.BoundedTableIsOne | prism-leak/src/prismfinalleak/ProbModelOutputExplorer.java:86-91 | with the uniform prior over a non-empty set of initial states and such probabilities, the bounded exploration from an empty table leaves entries that sum to exactly one |
| Explorer.ProbModelOutputExplorer.ExplorePathsRecur | prism-leak/src/prismfinalleak/ProbModelOutputExplorer.java:107-127 | the buffer prefix is preserved, and the table has handled exactly BoundedPaths of the prefix and state, in order |
| Explorer.ProbModelOutputExplorer.AddTopToBottomPath | prism-leak/src/prismfinalleak/ProbModelOutputExplorer.java:174-197 | the two stack loops rebuild the parent chain of `curr` from the initial state down, and the table handles that path |
| Explorer.ProbModelOutputExplorer.ExplorePathsNonRecur | prism-leak/src/prismfinalleak/ProbModelOutputExplorer.java:134-168 | the loop terminates, and the table has handled exactly UnboundedPaths of `initial`, in order |
| Explorer.ProbModelOutputExplorer.ExploreModel | prism-leak/src/prismfinalleak/ProbModelOutputExplorer.java:78-99 | a failed matrix build gives OutOfMemory and leaves the table unchanged; otherwise the table has handled the bounded or unbounded paths of every initial state in order |
| Scenarios.CycleBoundedThreeSteps | prism-leak/src/prismfinalleak/ProbModelOutputExplorer.java:114-115 | on a two-state cycle with three steps, exactly the one path 0,1,0,1 is reported |
| Scenarios.DiamondUnboundedOverwritesParent | prism-leak/src/prismfinalleak/ProbModelOutputExplorer.java:161-165 | with 0→1, 0→2, 2→1, the traversal reports 0,2,1 twice and never 0,1 |
| Scenarios.DiamondFinalCount | prism-leak/src/prismfinalleak/ProbModelOutputExplorer.java:149-166 | on the diamond, 0→1, 0→1→1 and 0→2→1 are walks to the final state 1, only the first and last have no self-step, and the count is 2 |
| Scenarios.DiamondUnboundedMass | prism-leak/src/prismfinalleak/ProbModelOutputExplorer.java:161-165 | with 0→1 at 0.3, 0→2 at 0.7, 2→1 and a self-loop on 1, the probabilities along every successor list sum to one and the two-step bounded paths have total product 1, but the unbounded paths have total product 1.4 |
| Scenarios.DiamondPathProb | prism-leak/src/prismfinalleak/ProbModelOutputExplorer.java:270-282 | under the uniform prior, the diamond path 0→2→1 has probability 0.7, output "y" at its end and secret "h0" at its start |
| Scenarios.DiamondPathTwice | prism-leak/src/prismfinalleak/ProbModelOutputExplorer.java:203-216 | handling that path twice from an empty table leaves exactly the entry ("y", "h0") at 1.4 |
| Scenarios.DiamondUnboundedTable | prism-leak/src/prismfinalleak/ProbModelOutputExplorer.java:139-166 | under the uniform prior, the unbounded traversal of the diamond from an empty table leaves exactly the entry ("y", "h0") at 1.4, a table total of 1.4 |

## Left out

- The native sparse-matrix library is replaced by the functions `succ` and `tp` of a `System` value, and `isFinalState` by the predicate "no successor other than itself". Its out-of-memory result is the boolean `matrixBuilt` of `ExploreModel`.
- The symbolic state store (`getStates`, `getInitialStates`, the MTBDD objects and the `currentModel` fields) is left out. Its explicit states are the `reach` and `start` fields of the `System`.
- File I/O is left out: the distribution file is given as its list of lines, and an `IOException` is not modelled.
- `Double.parseDouble` is a parameter `parse`. Probabilities are exact reals, not IEEE doubles, so rounding and summation order do not matter in the model.
- Explorer.ProbModelOutputExplorer.ExplorePathsRecur: only the bounded branch is modelled, because the source calls it only with `bounded` true.
- The getters (`getOutSecretDist` and the rest) and the commented-out matrix free are left out.
- Java's recursion depth limit (stack overflow in deep bounded searches) is not modelled.
- Explorer.ProbModelOutputExplorer.ExploreModel: unbounded mode requires a ranking under which every non-self transition descends, because on a cycle the source's traversal never ends.
- Explorer.ProbModelOutputExplorer.ExploreModel: `boundedStep` is a natural number. A negative step makes the source throw: below -2 the path buffer has a negative size, and at -2 or -1 a write goes past the end of the buffer. The exception is that at -1 a start state without successors reports nothing. An overflow of `boundedStep + 1` in `int` is not modelled either.
- The mass results (`BoundedExploration.BoundedPathsMass`, `Explorer.ProbModelOutputExplorer.BoundedMassIsOne` and the lemmas between them) assume that the probabilities along every successor list sum to one, as they do in a PRISM DTMC. The source neither checks nor relies on this.
- Explorer.ProbModelOutputExplorer.Prob: a uniform prior is priced only when there is at least one initial state, since the source then never calls `prob` (it would divide by zero).
- Explorer.ProbModelOutputExplorer.ExplorePathsNonRecur: the stack is a sequence local to the method and the push loop is the helper `PushSuccessors`. The Java `Stack` object and its aliasing are not modelled.
- Exceptions are results: PrismException from the matrix build is `Failure(OutOfMemory)`, and the distribution file's refusals are `PriorError` values. Their message texts are not modelled.
