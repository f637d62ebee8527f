# A verified model of the symbolic core of a decoupled planner

This project is a Dafny model of the self-contained core of a planner descended from Fast Downward. The planner uses symbolic (BDD/ADD) search and decoupled search. The model covers the parts of that core whose code is fully visible:

- **The variable-ordering optimiser** (`InfluenceGraph`). It holds a symmetric influence matrix over variables or factors. Its objective is the sum of squared position distances over influencing pairs. It improves an ordering by random-swap hill climbing, which keeps the objective up to date incrementally. It restarts from random permutations and keeps a restart only when it is strictly better. A variant restricts the swaps to partitions. On top of it sit the three static orderings:
  - the Gamer ordering over the causal graph;
  - the ordering that respects a factoring;
  - the per-leaf ordering of a factoring.
- **The state registry contract.**
  - A `StateID` is a plain `size_t` value.
  - The registered sets compare and hash states by their packed content.
  - There is one pool and one id set per leaf factor.
  - `size()` and `size(factor)` count the registered states.
  - The initial state is registered once and then cached.
- **The symbolic-search helpers**, with every decision-diagram operation passed in as an abstract function or value:
  - `mergeAux`: merging a list of diagrams pairwise, with a merge that can fail.
  - `SymSolution`: rebuilding the plan and grouping the plan's states by remaining cost.
  - The binary encoding of finite-domain values into an assignment of diagram variables.
  - The explicit decoupled lookup: which leaves a heuristic diagram covers, and branch and bound over member states.
  - The recursive decoupled lookup over an abstract diagram datatype.
  - The factor order and the lazily grown per-leaf cache of `PricesADD`.
  - The Gamer pattern-database heuristic: its pattern constructors, candidate variables, pattern growth, and how perimeter and PDB values combine into an estimate or a dead end.
- **Small rules.**
  - The goal-count heuristic.
  - Parsing a mutex group from a token list, and its membership test.
  - The clustering that follows a factoring: the leaves, then one singleton per center variable.

How things are represented:

- **Imperative code stays imperative.**
  - The orderings are `array<int>` values swapped in place.
  - The influence matrix is a field that `SetInfluence` reassigns.
  - The registry is a class with pool and id-set fields.
  - The assignment vectors of the lookups are arrays written in place.
- **Reference functions.** Every loop is proved against a reference function on values, and the properties the code promises are proved about that function.
- **Inputs instead of foreign code.** The random-number generator is a stream of raw draws `rng: nat -> nat`. Each graph consumes it from a cursor `drawn`, and `random(n)` is the next draw reduced modulo `n`. Because the generator is seeded with the constant 2023 whenever a graph is built, every fresh graph starts at draw 0 of the same stream. The causal graph, the factoring, the diagram evaluations, the prices of a search node and the registry's leaf states are all inputs as well.

## Model

| member | source | states |
|---|---|---|
| Sums.SumExt | src/search/symbolic/opt_order.cc:234-244 | a finite sum depends only on the values inside its range (used to read the cost loops as sums) |
| Sums.SumLinear | src/search/symbolic/opt_order.cc:198-209 | the sum of a pointwise sum is the sum of the sums (the delta loop adds two contributions per position) |
| Sums.SumOnePoint | src/search/symbolic/opt_order.cc:198-209 | changing a summand at one point changes the sum by exactly that difference |
| Sums.SumTwoPoints | src/search/symbolic/opt_order.cc:198-209 | changing summands at two distinct points changes the sum by both differences |
| Sums.SquareIsTwiceUpper | src/search/symbolic/opt_order.cc:236-241 | for a symmetric pair function with zero diagonal, the sum over the full square is twice the sum over pairs i < j |
| OptOrderCost.RowCostIsSum | src/search/symbolic/opt_order.cc:237-241 | the inner loop of compute_function adds the contributions of the pairs (i, k) for i < k < j |
| OptOrderCost.RowsCostIsSum | src/search/symbolic/opt_order.cc:236-242 | after i outer passes the running total is the sum of the first i rows of the upper triangle |
| OptOrderCost.CostIsUpper | src/search/symbolic/opt_order.cc:234-244 | the objective is the sum of (i - j)^2 over the position pairs i < j whose variables influence each other |
| OptOrderCost.Swap | src/search/symbolic/opt_order.cc:213-215 | exchanging positions a and b moves o[b] to a and o[a] to b and leaves every other position alone |
| OptOrderCost.SwapPermutes | src/search/symbolic/opt_order.cc:213-215 | a swap only rearranges the ordering (same multiset) |
| OptOrderCost.LinkedSymmetric | src/search/symbolic/opt_order.h:12-14 | with a symmetric matrix, whether positions i and j influence each other does not depend on their order |
| OptOrderCost.TermsSymmetric | src/search/symbolic/opt_order.cc:238-239 | the pair contributions are symmetric and zero on the diagonal |
| OptOrderCost.SquareIsTwiceCost | src/search/symbolic/opt_order.cc:234-244 | the full-square sum of the contributions is twice the objective |
| OptOrderCost.SwapOtherRow | src/search/symbolic/opt_order.cc:202-207 | after a swap, the square-sum row of a position other than the two swapped ones changes by exactly the contribution the delta loop adds for it |
| OptOrderCost.SwapOwnRowsAt | src/search/symbolic/opt_order.cc:202-207 | for the two swapped positions, the loop's contribution at j is the change of their terms with j |
| OptOrderCost.SwapOwnRows | src/search/symbolic/opt_order.cc:198-209 | the rows of the two swapped positions change together by the accumulated loop total |
| OptOrderCost.SwapCost | src/search/symbolic/opt_order.cc:198-209 | the incremental update is exact: for a symmetric matrix and a != b, the objective after the swap is the objective before it plus the change the delta loop accumulates |
| OptOrderSearch.Draw | src/search/symbolic/opt_order.cc:192-193 | random(n) gives a value in [0, n) |
| OptOrderSearch.ClimbStep | src/search/symbolic/opt_order.cc:192-226 | one iteration keeps the length and changes nothing when the two positions are equal |
| OptOrderSearch.ClimbStepNeverWorse | src/search/symbolic/opt_order.cc:212-226 | one iteration never makes the objective worse |
| OptOrderSearch.ClimbStepSwapsOrKeeps | src/search/symbolic/opt_order.cc:212-226 | one iteration either keeps the ordering or swaps the two drawn positions |
| OptOrderSearch.ClimbStepPermutes | src/search/symbolic/opt_order.cc:212-216 | one iteration only rearranges the ordering |
| OptOrderSearch.Climb | src/search/symbolic/opt_order.cc:190-227 | the ordering after iters climbing iterations from draw d, with the length kept (its properties: ClimbPermutes, ClimbNeverWorse) |
| OptOrderSearch.ClimbUnfold | src/search/symbolic/opt_order.cc:190-227 | one iteration at the drawn positions followed by iters - 1 more, from draw d + 2, is climbing iters times |
| OptOrderSearch.ClimbPermutes | src/search/symbolic/opt_order.cc:190-227 | hill climbing over any number of iterations returns a permutation of its input |
| OptOrderSearch.ClimbNeverWorse | src/search/symbolic/opt_order.cc:190-229 | hill climbing never ends with a worse objective than it started with |
| OptOrderSearch.PStep | src/search/symbolic/opt_order.cc:267-304 | one partition-restricted iteration keeps the length of the ordering |
| OptOrderSearch.PStepCases | src/search/symbolic/opt_order.cc:267-273 | a partition of size at most one is skipped after one draw; otherwise two positions inside it are drawn and ClimbStep is applied, after three draws |
| OptOrderSearch.PStepNeverWorse | src/search/symbolic/opt_order.cc:290-304 | one partition-restricted iteration never makes the objective worse |
| OptOrderSearch.PStepPermutes | src/search/symbolic/opt_order.cc:290-304 | one partition-restricted iteration only rearranges the ordering |
| OptOrderSearch.PClimb | src/search/symbolic/opt_order.cc:265-305 | the ordering and draw cursor after iters partition-restricted iterations, with the length kept |
| OptOrderSearch.PClimbUnfold | src/search/symbolic/opt_order.cc:265-305 | iters iterations are one PStep followed by iters - 1 iterations from the new cursor |
| OptOrderSearch.PStepKeepsWindow | src/search/symbolic/opt_order.cc:267-273 | one iteration only rearranges the values in a window that no partition straddles |
| OptOrderSearch.PStepSwapsInsidePartition | src/search/symbolic/opt_order.cc:267-273 | whatever one iteration changes is a swap of two positions inside a single partition of size above one |
| OptOrderSearch.PClimbPermutes | src/search/symbolic/opt_order.cc:265-305 | the partition-restricted climber only rearranges the ordering |
| OptOrderSearch.PClimbNeverWorse | src/search/symbolic/opt_order.cc:265-305 | the partition-restricted climber never makes the objective worse |
| OptOrderSearch.PClimbKeepsOutside | src/search/symbolic/opt_order.cc:267-273 | positions outside every partition of size above one never move |
| OptOrderSearch.PClimbKeepsWindow | src/search/symbolic/opt_order.cc:267-273 | the values in any window that no partition straddles are only rearranged among themselves |
| OptOrderSearch.PClimbKeepsBlock | src/search/symbolic/opt_order.cc:267-273 | with pairwise disjoint partitions, each partition's values stay inside that partition |
| OptOrderSearch.Unused | src/search/symbolic/opt_order.cc:163-177 | the entries randomize may still pick: never more than the input |
| OptOrderSearch.UnusedCount | src/search/symbolic/opt_order.cc:163-177 | in a duplicate-free input, each entry not yet used is available exactly once |
| OptOrderSearch.UnusedSize | src/search/symbolic/opt_order.cc:160-161 | after i picks without repetition, exactly \|s\| - i entries are unused, so random(\|s\| - i) always names one |
| OptOrderSearch.UnusedStep | src/search/symbolic/opt_order.cc:163-173 | scanning the ordering skips the entries already in new_order and counts the others |
| OptOrderSearch.ShuffleFrom | src/search/symbolic/opt_order.cc:160-179 | completing a shuffle from a partial new_order, with the length becoming that of the ordering |
| OptOrderSearch.ShuffleFromStep | src/search/symbolic/opt_order.cc:160-179 | one outer pass picks the Draw-th unused entry, which exists, and continues from the next draw |
| OptOrderSearch.Shuffle | src/search/symbolic/opt_order.cc:159-180 | randomize from an empty new_order, of the ordering's length |
| OptOrderSearch.ShuffleFromDrawsFromInput | src/search/symbolic/opt_order.cc:159-180 | completing a partial shuffle never uses an entry more often than the input holds it |
| OptOrderSearch.ShuffleIsPermutation | src/search/symbolic/opt_order.cc:159-180 | for a duplicate-free ordering, randomize builds a permutation of it |
| OptOrderSearch.Restart | src/search/symbolic/opt_order.cc:146-154 | one restart keeps the length of the ordering |
| OptOrderSearch.RestartStrictlyBetter | src/search/symbolic/opt_order.cc:150-154 | a restart keeps the current ordering unless the climbed shuffle is strictly better |
| OptOrderSearch.RestartPermutes | src/search/symbolic/opt_order.cc:145-155 | a restart of a duplicate-free ordering returns a permutation of it |
| OptOrderSearch.Restarts | src/search/symbolic/opt_order.cc:145-155 | the ordering after k restarts, of unchanged length |
| OptOrderSearch.RestartsStep | src/search/symbolic/opt_order.cc:145-155 | k restarts are one restart followed by k - 1 more from the next draw |
| OptOrderSearch.RestartsNeverWorse | src/search/symbolic/opt_order.cc:145-155 | any number of restarts never makes the objective worse |
| OptOrderSearch.RestartsPermute | src/search/symbolic/opt_order.cc:145-155 | any number of restarts returns a permutation of a duplicate-free ordering |
| OptOrderSearch.GetOrderingResult | src/search/symbolic/opt_order.cc:141-156 | the result of get_ordering: a climb, then the restarts, with the length kept |
| OptOrderSearch.GetOrderingUnfold | src/search/symbolic/opt_order.cc:141-145 | get_ordering is the restarts applied to the climbed ordering, starting after its 2 x iters draws |
| OptOrderSearch.GetOrderingNeverWorse | src/search/symbolic/opt_order.cc:141-156 | get_ordering never returns an ordering worse than its input |
| OptOrderSearch.GetOrderingPermutes | src/search/symbolic/opt_order.cc:141-156 | get_ordering returns a permutation of a duplicate-free input |
| OptOrder.RestartByObjective | src/search/symbolic/opt_order.cc:146-154 | under the influence objective, a restart takes the climbed shuffle exactly when it has a lower objective |
| OptOrder.GetOrderingNeverWorseByObjective | src/search/symbolic/opt_order.cc:141-156 | get_ordering never increases the influence objective of the matrix |
| OptOrder.Zeros | src/search/symbolic/opt_order.cc:247-253 | an num x num matrix, symmetric, with every entry 0 |
| OptOrder.SetCells | src/search/symbolic/opt_order.h:32-35 | cells (v1, v2) and (v2, v1) hold val and every other cell is unchanged |
| OptOrder.SetCellsSymmetric | src/search/symbolic/opt_order.h:32-35 | set_influence keeps a symmetric matrix symmetric |
| OptOrder.Contains | src/search/symbolic/opt_order.cc:166-173 | the scan of new_order finds x exactly when x occurs in it |
| OptOrder.NthUnused | src/search/symbolic/opt_order.cc:162-177 | the position randomize stops at holds the rndPos-th unused entry of the ordering |
| OptOrder.CopyInto | src/search/symbolic/opt_order.cc:152 | ordering.swap(new_order) leaves the ordering equal to the new order |
| OptOrder.InfluenceGraph.constructor | src/search/symbolic/opt_order.cc:247-253 | the matrix is num x num zeros and the generator has drawn nothing |
| OptOrder.InfluenceGraph.Influence | src/search/symbolic/opt_order.h:12-14 | the influence of v1 on v2 is the matrix cell, and it equals the cell for (v2, v1) because the matrix is kept symmetric |
| OptOrder.InfluenceGraph.SetInfluence | src/search/symbolic/opt_order.h:32-35 | the new matrix is the old one with both cells set (default 1), and it stays symmetric |
| OptOrder.InfluenceGraph.Random | src/search/symbolic/opt_order.cc:192 | the next draw of the stream, reduced to [0, bound) |
| OptOrder.InfluenceGraph.ComputeFunction | src/search/symbolic/opt_order.cc:234-244 | the returned total is the influence objective of the order |
| OptOrder.InfluenceGraph.SwapDelta | src/search/symbolic/opt_order.cc:198-209 | the accumulated change is the reference Delta, which SwapCost proves to be the exact change of the objective |
| OptOrder.InfluenceGraph.TrySwap | src/search/symbolic/opt_order.cc:197-226 | the array becomes ClimbStep of the old ordering, and the running total stays equal to the objective |
| OptOrder.InfluenceGraph.ClimbIteration | src/search/symbolic/opt_order.cc:190-227 | one loop pass consumes two draws and performs ClimbStep at the drawn positions |
| OptOrder.InfluenceGraph.OptimizeVariableOrderingGamer | src/search/symbolic/opt_order.cc:184-230 | the array becomes Climb of its old contents, the returned total is its objective and no worse than before, and the result is a permutation |
| OptOrder.InfluenceGraph.PartitionIteration | src/search/symbolic/opt_order.cc:266-304 | one pass draws a partition, skips sizes up to one and equal positions, otherwise swaps on strict improvement (PStep) |
| OptOrder.InfluenceGraph.OptimizeVariableOrderingGamerInPartitions | src/search/symbolic/opt_order.cc:257-307 | the array becomes PClimb of its old contents, the objective never increases, the result is a permutation, and positions outside the partitions keep their value |
| OptOrder.InfluenceGraph.ShuffleIteration | src/search/symbolic/opt_order.cc:160-179 | one outer pass appends one unused entry and consumes one draw |
| OptOrder.InfluenceGraph.Randomize | src/search/symbolic/opt_order.cc:159-180 | the result is Shuffle of the ordering, a permutation of it, after \|ordering\| draws |
| OptOrder.InfluenceGraph.RestartIteration | src/search/symbolic/opt_order.cc:146-154 | one restart: the ordering becomes Restart of the old one and stays a duplicate-free permutation |
| OptOrder.InfluenceGraph.GetOrdering | src/search/symbolic/opt_order.cc:141-156 | 50000 climbing iterations then 20 restarts: the ordering becomes GetOrderingResult, a permutation of its input, with an objective no worse |
| OptOrder.NonNegative | src/search/symbolic/opt_order.cc:190 | a counted loop with a negative bound runs zero times |
| GamerOrdering.Link | src/search/symbolic/opt_order.h:32-35 | linking a list of pairs keeps the matrix square |
| GamerOrdering.LinkEntries | src/search/symbolic/opt_order.cc:28-35 | starting from zeros, an entry is 1 exactly when its pair or the reversed pair was linked, else 0 |
| GamerOrdering.LinkPair | src/search/symbolic/opt_order.h:32-35 | one set_influence extends the list of linked pairs by (a, b) |
| GamerOrdering.LinkSnoc | src/search/symbolic/opt_order.h:32-35 | one more set_influence after a list of pairs is linking the extended list |
| GamerOrdering.Ascending | src/search/symbolic/opt_order.cc:23-26 | the listed variables 0, 1, ..., k - 1 |
| GamerOrdering.DistinctByIndex | src/search/symbolic/opt_order.cc:23-26 | a list whose positions hold pairwise different values is duplicate-free |
| GamerOrdering.CostOfIsObjective | src/search/symbolic/opt_order.cc:40 | the objective get_ordering optimises is the influence objective of the graph's matrix |
| GamerOrdering.ToArray | src/search/symbolic/opt_order.cc:40 | the vector passed to get_ordering holds the given order |
| GamerOrdering.OrderWith | src/search/symbolic/opt_order.cc:40 | get_ordering on a fresh graph (no draws yet) returns GetOrderingResult for the graph's objective |
| GamerOrdering.OrderingResult | src/search/symbolic/opt_order.cc:40 | the returned order is a permutation of the given one and its objective is no worse |
| GamerOrdering.GamerPairsMembers | src/search/symbolic/opt_order.cc:29-35 | the loops link (a, b) exactly when a is a variable, b is one of its successors and b != a |
| GamerOrdering.SuccPairsMembers | src/search/symbolic/opt_order.cc:30-34 | the inner loop of variable v links (v, b) exactly for the successors b != v seen so far |
| GamerOrdering.LinkSuccessor | src/search/symbolic/opt_order.cc:30-34 | one successor of the inner loop extends the linked pairs by that successor |
| GamerOrdering.LinkSuccessors | src/search/symbolic/opt_order.cc:30-34 | the inner loop over the successors of v links all pairs of v |
| GamerOrdering.GamerGraph | src/search/symbolic/opt_order.cc:28-35 | the matrix of the causal-graph influence graph, square over the variables (entries: GamerGraphEntries) |
| GamerOrdering.GamerGraphEntries | src/search/symbolic/opt_order.cc:28-35 | two variables influence each other exactly when they differ and one is a causal-graph successor of the other |
| GamerOrdering.LinkGamerGraph | src/search/symbolic/opt_order.cc:28-35 | the graph construction leaves exactly GamerGraph in the influence graph |
| GamerOrdering.Descending | src/search/symbolic/opt_order.cc:39 | the reversed variable list n - 1, ..., 0 |
| GamerOrdering.GamerOrderingPermutes | src/search/symbolic/opt_order.cc:19-47 | compute_gamer_ordering returns every variable exactly once, with an objective no worse than the reversed order it starts from |
| GamerOrdering.DescendingPermutes | src/search/symbolic/opt_order.cc:39 | the reversed list holds every variable once |
| GamerOrdering.ComputeGamerOrdering | src/search/symbolic/opt_order.cc:19-47 | the method returns GamerOrderingResult: get_ordering on the causal-graph influence graph, from the reversed variables |
| GamerOrdering.ListVariables | src/search/symbolic/opt_order.cc:23-26 | the pushed-back list is 0, 1, ..., n - 1 |
| GamerOrdering.Reverse | src/search/symbolic/opt_order.cc:39 | std::reverse puts the entry from position \|s\| - 1 - i at position i |
| GamerOrdering.CentersOf | src/search/symbolic/opt_order.cc:65-72 | the center variables in increasing order |
| GamerOrdering.CentersOfMembers | src/search/symbolic/opt_order.cc:65-72 | the center list holds exactly the center variables |
| GamerOrdering.NumberedCenter | src/search/symbolic/opt_order.cc:66-71 | numbering a center variable appends the next factor id and records it in both maps |
| GamerOrdering.NumberedLeaf | src/search/symbolic/opt_order.cc:65-66 | a leaf variable adds no factor |
| GamerOrdering.NumberCenter | src/search/symbolic/opt_order.cc:66-71 | one pass of the center loop extends the numbering to the next variable |
| GamerOrdering.FactorOfVarIn | src/search/symbolic/opt_order.cc:77-79 | every variable maps to a factor number below the number of factors |
| GamerOrdering.NumberFactors | src/search/symbolic/opt_order.cc:61-72 | factor_order is 0 .. (leaves + centers - 1), the i-th center variable gets factor number leaves + i, and center_variable_to_factor agrees with that numbering |
| GamerOrdering.FactorPairsMembers | src/search/symbolic/opt_order.cc:76-84 | the loops link two factors exactly when they differ and a variable of one has a causal-graph successor in the other |
| GamerOrdering.FactorGraphEntries | src/search/symbolic/opt_order.cc:75-84 | two factors influence each other exactly when they differ and one has a variable with a successor in the other |
| GamerOrdering.FactorGraph | src/search/symbolic/opt_order.cc:75-84 | the matrix of the factor influence graph, square over the factors (entries: FactorGraphEntries) |
| GamerOrdering.LinkFactorSuccessor | src/search/symbolic/opt_order.cc:79-82 | one successor of the inner loop links the two factors when they differ |
| GamerOrdering.LinkFactorSuccessors | src/search/symbolic/opt_order.cc:77-83 | the inner loop over the successors of v links all factor pairs of v |
| GamerOrdering.LookupFactor | src/search/symbolic/opt_order.cc:77 | the factor of a variable: its leaf, or its own number when it is a center variable |
| GamerOrdering.LinkFactorGraph | src/search/symbolic/opt_order.cc:75-84 | the construction leaves exactly FactorGraph in the graph over the factors |
| GamerOrdering.ExpandContiguous | src/search/symbolic/opt_order.cc:88-98 | the expansion splits at any position of the factor order into the expansion before it, that factor's own block (its leaf's variables in order, or its center variable) and the expansion after it |
| GamerOrdering.ExpandAppend | src/search/symbolic/opt_order.cc:90-98 | expanding concatenated factor orders concatenates the expansions |
| GamerOrdering.ExpandRemove | src/search/symbolic/opt_order.cc:90-98 | removing one factor from the factor order removes exactly its block from the expanded variables |
| GamerOrdering.AppendBlock | src/search/symbolic/opt_order.cc:91-97 | one pass of the expansion loop appends the factor's block |
| GamerOrdering.ExpandLeaves | src/search/symbolic/opt_order.cc:90-94 | expanding the first k leaf factors in order gives their variables in order |
| GamerOrdering.ExpandAscending | src/search/symbolic/opt_order.cc:90-98 | expanding the numbering order up to the j-th center gives all leaf variables, then the first j center variables |
| GamerOrdering.ExpandPermutation | src/search/symbolic/opt_order.cc:88-98 | the multiset of expanded variables depends only on the multiset of factors |
| GamerOrdering.ExpandAll | src/search/symbolic/opt_order.cc:88-98 | the numbering order expands to all the leaves in order, then the center variables in order |
| GamerOrdering.ExpandFactorOrder | src/search/symbolic/opt_order.cc:88-98 | the expansion loop produces Expand of the factor order |
| GamerOrdering.RespectingFactorOrderPermutes | src/search/symbolic/opt_order.cc:86 | the optimised factor order holds every factor exactly once, with an objective no worse than the numbering order |
| GamerOrdering.SomeFactor | src/search/symbolic/opt_order.cc:75 | a task with variables has at least one factor |
| GamerOrdering.RespectingFactorOrderIs | src/search/symbolic/opt_order.cc:75-86 | the optimised factor order is get_ordering of the factor graph from the numbering order |
| GamerOrdering.OrderFactors | src/search/symbolic/opt_order.cc:75-86 | the method builds the factor graph and returns the optimised factor order |
| GamerOrdering.ExpandedPermutes | src/search/symbolic/opt_order.cc:88-98 | any permutation of the factors expands to the leaf variables and the center variables, as often as the factoring lists them |
| GamerOrdering.RespectingPermutes | src/search/symbolic/opt_order.cc:49-106 | the variable order holds the variables of every leaf and every center variable, as often as the factoring lists them |
| GamerOrdering.RespectingCenterOnce | src/search/symbolic/opt_order.cc:88-98 | a center variable that no leaf lists appears exactly once |
| GamerOrdering.ComputeGamerOrderingRespectingFactors | src/search/symbolic/opt_order.cc:49-106 | with no factoring and no leaves the Gamer ordering is returned; otherwise the expanded optimised factor order is |
| GamerOrdering.LeafGraphEntries | src/search/symbolic/opt_order.cc:120-128 | in the graph of leaf f two variables are linked exactly when one of them is a variable of the leaf with the other as a successor that belongs to the leaf |
| GamerOrdering.LeafPairsMembers | src/search/symbolic/opt_order.cc:122-128 | after the first i variables of the leaf, (a, b) is linked exactly when a is one of them and b a successor of a in the same leaf |
| GamerOrdering.LeafGraph | src/search/symbolic/opt_order.cc:120-128 | the matrix of the graph of one leaf over all variables (entries: LeafGraphEntries) |
| GamerOrdering.LinkLeafSuccessor | src/search/symbolic/opt_order.cc:123-127 | one successor of the inner loop links (v, v2) when v2 is in the leaf |
| GamerOrdering.LinkLeafSuccessors | src/search/symbolic/opt_order.cc:123-127 | the inner loop over the successors of v links all its pairs |
| GamerOrdering.LinkLeafGraph | src/search/symbolic/opt_order.cc:120-128 | the construction leaves exactly LeafGraph in the fresh graph |
| GamerOrdering.LeafOrderPermutes | src/search/symbolic/opt_order.cc:130 | each leaf is reordered among its own variables, with an objective no worse than its given order |
| GamerOrdering.OrderLeaf | src/search/symbolic/opt_order.cc:120-130 | one pass: a fresh graph over all variables, linked for the leaf and optimised, gives LeafOrder |
| GamerOrdering.Reorder | src/search/symbolic/opt_order.cc:115-131 | res after the first k passes: one entry per leaf |
| GamerOrdering.ReorderEntries | src/search/symbolic/opt_order.cc:115-131 | after k passes, the leaves below k are replaced by their orders and the others are as in g_leaves |
| GamerOrdering.ReorderAll | src/search/symbolic/opt_order.cc:119-131 | after the last pass every leaf is replaced by its own order |
| GamerOrdering.Factored | src/search/symbolic/opt_order.cc:112-136 | what compute_factored_gamer_ordering returns: one order per leaf |
| GamerOrdering.FactoredLeaf | src/search/symbolic/opt_order.cc:112-136 | the order of leaf f holds exactly the variables of that leaf, with an objective no worse than the given leaf |
| GamerOrdering.ComputeFactoredGamerOrdering | src/search/symbolic/opt_order.cc:112-136 | the method returns the order of each leaf of the factoring |
| StateIds.EqualIsIdentity | src/search/state_id.h:28-34 | == holds exactly for ids of equal value, and != exactly when == fails |
| StateIds.HashAgreesWithEqual | src/search/state_id.h:36-38 | the hash is the value, so ids are equal exactly when their hashes are |
| StateIds.NoStateDistinct | src/search/state_id.h:26 | the sentinel no_state equals only the id of its own fixed value |
| StateRegistries.FedPrefix | src/search/state_registry.h:125-132 | the fed hash depends only on the first state_size bins |
| StateRegistries.HashBins | src/search/state_registry.h:127-131 | the feed loop returns get_hash32 of the hash fed with the first size bins, in order |
| StateRegistries.InsertOrPop | src/search/state_registry.h:234 | given a candidate record at the end of the pool: an existing id with equal content is returned and the candidate popped, otherwise the candidate's own index is registered. Either way the id set stays free of content duplicates |
| StateRegistries.StateRegistry.constructor | src/search/state_registry.h:216-224 | empty pool and set, one empty pool and set per leaf factor, leaf bin counts only with a factoring, and no cached initial state |
| StateRegistries.StateRegistry.LookupState | src/search/state_registry.h:53-56 | the record of an id is the pool entry at the id's value |
| StateRegistries.StateRegistry.SemanticEqual | src/search/state_registry.h:145-149 | two registered ids are semantically equal exactly when their first state_size bins agree, and that holds exactly when they are the same id |
| StateRegistries.StateRegistry.SemanticHash | src/search/state_registry.h:125-132 | the hash of an id is the hash of its record's first state_size bins |
| StateRegistries.StateRegistry.SemanticHashRespectsEqual | src/search/state_registry.h:125-132 | records with equal first state_size bins hash equally |
| StateRegistries.StateRegistry.LeafSemanticEqual | src/search/state_registry.h:191-196 | two ids of one factor are equal exactly when that factor's number of bins agree, which holds exactly for the same id |
| StateRegistries.StateRegistry.LeafSemanticHash | src/search/state_registry.h:166-173 | the hash of a leaf id is the hash of its factor's number of bins of its record |
| StateRegistries.StateRegistry.Size | src/search/state_registry.h:297-299 | size() is the number of registered states, which is also the number of stored records |
| StateRegistries.StateRegistry.LeafSize | src/search/state_registry.h:304-306 | size(factor) is the number of states registered for that leaf factor; without a factoring it is 0 for every factor |
| StateRegistries.StateRegistry.Register | src/search/state_registry.h:234 | registering a record returns the existing id of equal content when there is one, else a new id; the set stays duplicate-free |
| StateRegistries.StateRegistry.RegisterLeaf | src/search/state_registry.h:236 | for the given leaf factor: a record with the same bins as a registered one returns that id and leaves the pool and set unchanged; otherwise the pool gains the record at the end and the set gains its index, which is the returned id; every other factor is untouched |
| StateRegistries.StateRegistry.GetInitialState | src/search/state_registry.h:256-260 | the first call registers the packed initial state as Register does (unchanged pool on a duplicate, otherwise appended with its index as the id) and caches the id; a later call returns the cached id and registers nothing |
| SymUtil.EvenUp | src/search/symbolic/sym_util.h:63-72 | the odd-length fix shortens the list by exactly one |
| SymUtil.PairUp | src/search/symbolic/sym_util.h:74-87 | k pair merges leave exactly k elements in aux |
| SymUtil.Round | src/search/symbolic/sym_util.h:63-89 | one round halves the number of live elements (rounded down) |
| SymUtil.Merge | src/search/symbolic/sym_util.h:52-105 | merging yields Merged, and leaves the list unchanged when maxSize <= 1 or the list has at most one element |
| SymUtil.MergePairs | src/search/symbolic/sym_util.h:74-89 | the pair loop produces PairUp, empties aux and adds PairUp's set-aside elements to result |
| SymUtil.UnionOfAppend | src/search/symbolic/sym_util.h:92-99 | the contents of two concatenated lists are the union of their contents |
| SymUtil.EvenUpKeepsContents | src/search/symbolic/sym_util.h:63-72 | the odd-length fix loses and invents no contents |
| SymUtil.PairUpKeepsContents | src/search/symbolic/sym_util.h:74-87 | the results of k pair merges, together with the elements set aside, hold exactly the contents of the first 2k elements |
| SymUtil.RoundKeepsContents | src/search/symbolic/sym_util.h:63-89 | a round, with what it sets aside, keeps the contents |
| SymUtil.RoundsKeepContents | src/search/symbolic/sym_util.h:62-95 | the rounds keep the contents of the result and the live elements together |
| SymUtil.MergeKeepsContents | src/search/symbolic/sym_util.h:52-105 | after the merge the elements hold exactly the contents they held before |
| SymUtil.RoundsLength | src/search/symbolic/sym_util.h:62-95 | the rounds never add elements and keep a nonempty list nonempty |
| SymUtil.RoundLength | src/search/symbolic/sym_util.h:63-89 | a round never has more live and set-aside elements together than it started with |
| SymUtil.PairUpLength | src/search/symbolic/sym_util.h:78-85 | k pairs set aside at most k elements |
| SymUtil.PairUpNoAside | src/search/symbolic/sym_util.h:74-87 | when no merge fails nothing is set aside |
| SymUtil.RoundsNoAside | src/search/symbolic/sym_util.h:62-95 | when no merge fails the rounds end with the result followed by exactly one element |
| SymUtil.MergeAllSucceed | src/search/symbolic/sym_util.h:92-95 | when no merge fails a nonempty list is merged into exactly one element |
| SymUtil.MergeLength | src/search/symbolic/sym_util.h:52-105 | merging never lengthens the list and never empties a nonempty one |
| SymSolutions.Progressed | src/search/symbolic/sym_solution.cc:26-32 | progression keeps the number of variables |
| SymSolutions.ProgressedFrame | src/search/symbolic/sym_solution.cc:26-32 | a variable that no firing effect writes keeps its value |
| SymSolutions.ProgressedLastWrite | src/search/symbolic/sym_solution.cc:27-31 | a variable written by firing effects takes the value of the last of them, with every condition evaluated on the unmodified state |
| SymSolutions.Run | src/search/symbolic/sym_solution.cc:25-33 | running a path keeps the number of variables |
| SymSolutions.ApplyOperator | src/search/symbolic/sym_solution.cc:26-32 | the effect loop yields Progressed of the old state |
| SymSolutions.ApplyPath | src/search/symbolic/sym_solution.cc:23-33 | the path loop yields Run of the initial state |
| SymSolutions.NoSolution | src/search/symbolic/sym_solution.h:17 | the default solution has g = h = -1, no searches, and is not solved |
| SymSolutions.ForwardSolution | src/search/symbolic/sym_solution.h:19 | the forward-only solution has h = 0, so its cost is the given cost, and it is solved exactly when that cost is non-negative |
| SymSolutions.BidirectionalSolution | src/search/symbolic/sym_solution.h:21 | the solution of both searches costs g + h and stores its arguments |
| SymSolutions.Plan | src/search/symbolic/sym_solution.cc:11-59 | the rebuilt plan consists of operators of the planning task |
| SymSolutions.GetPlan | src/search/symbolic/sym_solution.cc:11-59 | starting from an empty path, the result is Plan, and it begins with the forward part when there is a forward search |
| SymSolutions.AccumulatedStates | src/search/symbolic/sym_solution.cc:75-95 | after n steps a key is present exactly when some state i <= n of the plan has that remaining cost, and it maps to the union of all those states |
| SymSolutions.GetAdd | src/search/symbolic/sym_solution.cc:61-97 | the map holds exactly the remaining costs g + h minus the cost so far along the plan, each mapped to the set of plan states reached with it |
| PricesAdd.LeafFactor | src/search/symbolic/prices_ADD.h:21-22 | the leaf constructor makes a leaf factor whose get_leaf_factor is the given id |
| PricesAdd.CenterFactor | src/search/symbolic/prices_ADD.h:24-25 | the center constructor makes a non-leaf factor whose get_center_variable is the given variable |
| PricesAdd.FactorConstructors | src/search/symbolic/prices_ADD.h:16-39 | a leaf factor never equals a center factor, and each constructor is injective |
| PricesAdd.ScanMembers | src/search/symbolic/prices_ADD.cc:24-36 | the backward scan holds a leaf factor exactly when one of its variables was scanned, and a center factor exactly for a scanned center variable |
| PricesAdd.ScanDistinct | src/search/symbolic/prices_ADD.cc:28-35 | over distinct variables the scan lists every factor at most once |
| PricesAdd.BuildFactorOrder | src/search/symbolic/prices_ADD.cc:22-36 | the constructor's loop builds the backward Scan of the variable order, without repetition when the order has none |
| PricesAdd.LeafStateFactsHold | src/search/symbolic/prices_ADD.cc:78-83 | the leaf-state diagram is 0 exactly on the assignments that agree with the leaf state on every leaf variable |
| PricesAdd.BuildLeafStateFacts | src/search/symbolic/prices_ADD.cc:78-81 | the conjunction loop yields the facts of every leaf variable |
| PricesAdd.ReachedIdsExactly | src/search/symbolic/prices_ADD.cc:44-45 | the reached ids below k are listed exactly, each once, in increasing order |
| PricesAdd.ReachedIdsPrefix | src/search/symbolic/prices_ADD.cc:44-56 | the reached ids below a are the first ones of those below b >= a |
| PricesAdd.Visited | src/search/symbolic/prices_ADD.cc:43-56 | the ids the loop visits are reached ids below the registry size, at most get_number_states of them when that is positive |
| PricesAdd.PricesAdd.constructor | src/search/symbolic/prices_ADD.cc:16-37 | one empty cache per leaf factor, and factor_order is the backward Scan of the variable order |
| PricesAdd.PricesAdd.GetLeafStateAdd | src/search/symbolic/prices_ADD.cc:69-89 | the factor's cache only grows, by appending in id order, until it holds more than id entries; no other cache changes; the answer is the diagram of that leaf state |
| PricesAdd.PricesAdd.AddTerm | src/search/symbolic/prices_ADD.cc:46-52 | one reached leaf state adds its diagram with its price to the terms |
| PricesAdd.PricesAdd.VisitId | src/search/symbolic/prices_ADD.cc:45-56 | one id of the loop adds a term exactly for a reached leaf state |
| PricesAdd.PricesAdd.GetLeafPricesAdd | src/search/symbolic/prices_ADD.cc:41-65 | the terms are the diagrams and prices of the Visited leaf states, in id order |
| LookupEncoding.Pow2 | src/search/symbolic_pdbs/lookup_add_decoupled_heuristic.cc:91-98 | powers of two are positive |
| LookupEncoding.BitRange | src/search/symbolic_pdbs/lookup_add_decoupled_heuristic.cc:94 | for a non-negative value every written entry is 0 or 1; for a negative value the C++ remainder gives 0 or -1 |
| LookupEncoding.ShrHalf | src/search/symbolic_pdbs/lookup_add_decoupled_heuristic.cc:94 | shifting by pos + 1 is shifting the halved value by pos |
| LookupEncoding.Bits | src/search/symbolic_pdbs/lookup_add_decoupled_heuristic.cc:93-96 | the first n bits of a value, lowest first |
| LookupEncoding.BitsAt | src/search/symbolic_pdbs/lookup_add_decoupled_heuristic.cc:94 | position pos of the bits is (value >> pos) % 2 |
| LookupEncoding.DecodeBits | src/search/symbolic_pdbs/lookup_add_decoupled_heuristic.cc:93-96 | the little-endian bits of a natural below 2^n decode back to it |
| LookupEncoding.Encode | src/search/symbolic_pdbs/lookup_add_decoupled_heuristic.cc:91-98 | writing a value keeps the size of the assignment |
| LookupEncoding.EncodeFrame | src/search/symbolic_pdbs/lookup_add_decoupled_heuristic.cc:91-98 | writing a value touches only the variable's own diagram variables |
| LookupEncoding.EncodeSets | src/search/symbolic_pdbs/lookup_add_decoupled_heuristic.cc:93-96 | with distinct diagram variables the pos-th one holds bit pos |
| LookupEncoding.ReadBits | src/search/symbolic_pdbs/lookup_add_decoupled_heuristic.cc:93 | reading the listed diagram variables gives one entry each |
| LookupEncoding.EncodeRoundTrip | src/search/symbolic_pdbs/lookup_add_decoupled_heuristic.cc:91-98 | reading back the diagram variables of an encoded value below 2^bits decodes to that value |
| LookupEncoding.SetBinaryEncoding | src/search/symbolic_pdbs/lookup_add_decoupled_heuristic.cc:91-98 | the array becomes Encode of its old contents |
| LookupEncoding.EncodeVars | src/search/symbolic_pdbs/lookup_add_decoupled_heuristic.cc:103-112 | encoding a list of variables keeps the size |
| LookupEncoding.EncodeVarsFrame | src/search/symbolic_pdbs/lookup_add_decoupled_heuristic.cc:108-113 | encoding the listed variables touches only their diagram variables |
| LookupEncoding.EncodeVarsSets | src/search/symbolic_pdbs/lookup_add_decoupled_heuristic.cc:103-112 | with a proper layout every listed variable's diagram variables hold the bits of its value |
| LookupEncoding.SetBinaryEncodingCenter | src/search/symbolic_pdbs/lookup_add_decoupled_heuristic.cc:108-113 | the array becomes EncodeVars of the center variables with the state's values |
| LookupEncoding.SetBinaryEncodingLeaf | src/search/symbolic_pdbs/lookup_add_decoupled_heuristic.cc:100-106 | the array becomes EncodeVars of the leaf's variables with the leaf state's values |
| LookupExplicit.SupportVars | src/search/symbolic_pdbs/lookup_add_decoupled_heuristic.cc:168-172 | a finite-domain variable is flagged exactly when some support variable belongs to it |
| LookupExplicit.SupportFlags | src/search/symbolic_pdbs/lookup_add_decoupled_heuristic.cc:168-172 | one flag per finite-domain variable |
| LookupExplicit.CoveredLeaves | src/search/symbolic_pdbs/lookup_add_decoupled_heuristic.cc:174-181 | only leaf ids are listed |
| LookupExplicit.CoveredLeavesExactly | src/search/symbolic_pdbs/lookup_add_decoupled_heuristic.cc:167-182 | a leaf is covered exactly when one of its variables is in the support, and the list is strictly increasing |
| LookupExplicit.LeafTouches | src/search/symbolic_pdbs/lookup_add_decoupled_heuristic.cc:175-180 | the inner loop reports exactly whether some variable of the leaf is in the support |
| LookupExplicit.ComputeCoveredLeaves | src/search/symbolic_pdbs/lookup_add_decoupled_heuristic.cc:174-181 | the loop over the leaves produces CoveredLeaves |
| LookupExplicit.Assign | src/search/symbolic_pdbs/lookup_add_decoupled_heuristic.cc:227-229 | assigning a leaf keeps the size of the member state |
| LookupExplicit.AssignAt | src/search/symbolic_pdbs/lookup_add_decoupled_heuristic.cc:227-229 | the listed variables take their values and every other variable keeps its value |
| LookupExplicit.InitialMembersAt | src/search/symbolic_pdbs/lookup_add_decoupled_heuristic.cc:185-188 | the initial member state holds the state's value on center variables and -1 elsewhere |
| LookupExplicit.InitialMemberState | src/search/symbolic_pdbs/lookup_add_decoupled_heuristic.cc:185-188 | the fresh array holds InitialMembers |
| LookupExplicit.AssignValues | src/search/symbolic_pdbs/lookup_add_decoupled_heuristic.cc:227-229 | the array becomes Assign of its old contents |
| LookupExplicit.Choose | src/search/symbolic_pdbs/lookup_add_decoupled_heuristic.cc:226-229 | choosing a leaf state keeps the size of the member state |
| LookupExplicit.BestAtLeast | src/search/symbolic_pdbs/lookup_add_decoupled_heuristic.cc:205-208 | with non-negative prices no completion costs less than the prices so far, which is what makes the cut sound |
| LookupExplicit.BestOverAtLeast | src/search/symbolic_pdbs/lookup_add_decoupled_heuristic.cc:222-242 | the same bound for the choice among a list of leaf states |
| LookupExplicit.ChooseAgrees | src/search/symbolic_pdbs/lookup_add_decoupled_heuristic.cc:227-229 | choosing the same leaf state keeps two member states in agreement, one leaf further |
| LookupExplicit.BestIndependent | src/search/symbolic_pdbs/lookup_add_decoupled_heuristic.cc:196-243 | the best value depends only on the variables outside the covered leaves still to be chosen |
| LookupExplicit.BestOverIndependent | src/search/symbolic_pdbs/lookup_add_decoupled_heuristic.cc:222-242 | the same for the choice among a list of leaf states |
| LookupExplicit.CoveredVarMonotone | src/search/symbolic_pdbs/lookup_add_decoupled_heuristic.cc:222-229 | the leaves still to be chosen shrink by one per level |
| LookupExplicit.ComputeDecoupledValue | src/search/symbolic_pdbs/lookup_add_decoupled_heuristic.cc:196-243 | min_h never grows and never drops below the minimum of min_h and the best completion over the visited leaf states (Best); with non-negative prices it equals that minimum, so the sum_prices cut loses nothing; variables outside the leaves still to be chosen keep their values |
| LookupExplicit.EnumerateLeaf | src/search/symbolic_pdbs/lookup_add_decoupled_heuristic.cc:222-242 | the per-leaf loop relates min_h to the best completion over the visited leaf states, stopping after get_number_states of them |
| LookupExplicit.EnumerateStep | src/search/symbolic_pdbs/lookup_add_decoupled_heuristic.cc:224-241 | one id of the per-leaf loop extends the progress by that id when it is reached |
| LookupExplicit.VisitLeafState | src/search/symbolic_pdbs/lookup_add_decoupled_heuristic.cc:226-237 | one reached leaf state sets its variables and searches on with its price added |
| LookupExplicit.ExplicitHeuristic.constructor | src/search/symbolic_pdbs/lookup_add_decoupled_heuristic.cc:163-165 | the cache of covered leaves starts empty |
| LookupExplicit.ExplicitHeuristic.Lookup | src/search/symbolic_pdbs/lookup_add_decoupled_heuristic.cc:163-193 | afterwards the cache maps the heuristic to its covered leaves and nothing else in it changes; the result lies between the minimum of INT_MAX and the best completion from the initial member state and INT_MAX, and equals that minimum with non-negative prices |
| LookupRecursive.TerminalValue | src/search/symbolic_pdbs/lookup_add_decoupled_heuristic.cc:35-41 | the +infinity terminal is INT_MAX and any other terminal is its number |
| LookupRecursive.EncodeLeaf | src/search/symbolic_pdbs/lookup_add_decoupled_heuristic.cc:64 | the assignment with a leaf state's bits written (EncodeVarsSets gives the bits); its size is kept |
| LookupRecursive.Clear | src/search/symbolic_pdbs/lookup_add_decoupled_heuristic.cc:81-83 | the assignment with the listed entries reset (ClearFrees says which); its size is kept |
| LookupRecursive.ClearVars | src/search/symbolic_pdbs/lookup_add_decoupled_heuristic.cc:80-84 | the assignment with a leaf's diagram variables reset (ClearVarsFrees says which); its size is kept |
| LookupRecursive.ClearFrees | src/search/symbolic_pdbs/lookup_add_decoupled_heuristic.cc:81-83 | the listed diagram variables become -1 and every other entry is unchanged |
| LookupRecursive.ClearVarsFrees | src/search/symbolic_pdbs/lookup_add_decoupled_heuristic.cc:79-84 | every diagram variable of the leaf's variables becomes -1 and nothing else changes |
| LookupRecursive.Lookup | src/search/symbolic_pdbs/lookup_add_decoupled_heuristic.cc:26-88 | the value and final assignment of the walk from a node, with the assignment's size kept (its value is bounded by LookupInfinite and LookupNonNegative) |
| LookupRecursive.Enumerate | src/search/symbolic_pdbs/lookup_add_decoupled_heuristic.cc:58-78 | the minimum over the listed leaf states and the final assignment, with the assignment's size kept |
| LookupRecursive.LookupInfinite | src/search/symbolic_pdbs/lookup_add_decoupled_heuristic.cc:35-41 | a diagram whose terminals are all +infinity looks up as INT_MAX |
| LookupRecursive.EnumerateInfinite | src/search/symbolic_pdbs/lookup_add_decoupled_heuristic.cc:59-72 | only finite sub-results enter the minimum, so an all-infinite diagram stays at INT_MAX |
| LookupRecursive.LookupNonNegative | src/search/symbolic_pdbs/lookup_add_decoupled_heuristic.cc:26-88 | with non-negative terminals and prices the lookup is non-negative |
| LookupRecursive.EnumerateNonNegative | src/search/symbolic_pdbs/lookup_add_decoupled_heuristic.cc:58-78 | the same for the loop over leaf states |
| LookupRecursive.LookupResetsLeaf | src/search/symbolic_pdbs/lookup_add_decoupled_heuristic.cc:79-84 | after a lookup at a node whose variable is free, every diagram variable of that leaf is -1 again |
| LookupRecursive.LookupRec | src/search/symbolic_pdbs/lookup_add_decoupled_heuristic.cc:26-88 | the recursion returns Lookup's value and leaves Lookup's assignment |
| LookupRecursive.ResetLeaf | src/search/symbolic_pdbs/lookup_add_decoupled_heuristic.cc:79-84 | the reset loop yields ClearVars |
| LookupRecursive.EnumerateLeafStates | src/search/symbolic_pdbs/lookup_add_decoupled_heuristic.cc:59-78 | the loop yields Enumerate over the visited leaf states |
| LookupRecursive.EnumerateStep | src/search/symbolic_pdbs/lookup_add_decoupled_heuristic.cc:61-77 | one id of the loop extends Enumerate by that id when it is reached |
| LookupRecursive.InitialAssignment | src/search/symbolic_pdbs/lookup_add_decoupled_heuristic.cc:19-20 | the starting assignment has one entry per diagram variable |
| LookupRecursive.InitialAssignmentAt | src/search/symbolic_pdbs/lookup_add_decoupled_heuristic.cc:19-20 | the center variables' diagram variables hold their bits and every other entry is -1 |
| LookupRecursive.LookupHeuristic | src/search/symbolic_pdbs/lookup_add_decoupled_heuristic.cc:18-24 | lookup returns the walk's value from the starting assignment |
| GamerPdbs.AllVars | src/search/symbolic_pdbs/gamer_pdbs_heuristic.cc:30-32 | the set of the n task variables 0 .. n - 1 |
| GamerPdbs.NewPerimeterSearch | src/search/symbolic_pdbs/gamer_pdbs_heuristic.cc:25-33 | the perimeter search has all task variables as its pattern and searches the original space |
| GamerPdbs.NewPatternSearch | src/search/symbolic_pdbs/gamer_pdbs_heuristic.cc:35-46 | the search keeps the given pattern |
| GamerPdbs.PatternSearchOriginal | src/search/symbolic_pdbs/gamer_pdbs_heuristic.cc:41-45 | a pattern of task variables reuses the original space exactly when it holds all of them, and otherwise projects onto the pattern |
| GamerPdbs.GoalPattern | src/search/symbolic_pdbs/gamer_pdbs_heuristic.cc:177-180 | the initial pattern holds exactly the goal variables |
| GamerPdbs.HasSuccessorIn | src/search/symbolic_pdbs/gamer_pdbs_heuristic.cc:96-101 | the inner loop reports exactly whether some pre-to-eff successor lies in the pattern |
| GamerPdbs.CandidateVars | src/search/symbolic_pdbs/gamer_pdbs_heuristic.cc:89-106 | candidate_vars lists the candidate variables in increasing order |
| GamerPdbs.CandidatesExactly | src/search/symbolic_pdbs/gamer_pdbs_heuristic.cc:89-106 | a variable is a candidate exactly when it is outside the pattern and has a pre-to-eff successor in it; the list is strictly increasing |
| GamerPdbs.ChildPattern | src/search/symbolic_pdbs/gamer_pdbs_heuristic.cc:203-204 | a child holds its parent and the added variable |
| GamerPdbs.UnionPatterns | src/search/symbolic_pdbs/gamer_pdbs_heuristic.cc:245-248 | the combined pattern holds exactly what some selected pattern holds |
| GamerPdbs.UnionAllMembers | src/search/symbolic_pdbs/gamer_pdbs_heuristic.cc:245-248 | the union of the patterns holds what some pattern holds, and nothing else |
| GamerPdbs.PatternGrows | src/search/symbolic_pdbs/gamer_pdbs_heuristic.cc:222-266 | the next best pattern strictly contains the current one and stays within the planning task's variables, so the growth loop ends after at most n rounds |
| GamerPdbs.FactoredHeuristicIs | src/search/symbolic_pdbs/gamer_pdbs_heuristic.cc:292-308 | with factoring the result is DEAD_END exactly when a lookup gives INT_MAX; otherwise it lies in [0, INT_MAX), is at least every lookup, and is 0 or one of them |
| GamerPdbs.ComputeNonFactored | src/search/symbolic_pdbs/gamer_pdbs_heuristic.cc:310-339 | the loops compute NonFactoredHeuristic: a dead end when a not-mutex diagram evaluates to zero or the perimeter or PDB value is -1 or infinite, the perimeter value when it is below max_perimeter, otherwise the larger of the PDB value and the perimeter value (or 0) |
| GamerPdbs.NonFactoredDominates | src/search/symbolic_pdbs/gamer_pdbs_heuristic.cc:317-336 | an estimate only arises from finite values other than -1; it is at least the perimeter value, equals it when that is below max_perimeter, and otherwise is at least the PDB value; it is 0 or one of the two values |
| GoalCount.Unsatisfied | src/search/goal_count_heuristic.cc:22-30 | the count is at most the number of goal facts, and 0 exactly when no goal fact is violated |
| GoalCount.UnsatisfiedCountsViolated | src/search/goal_count_heuristic.cc:24-28 | each violated goal fact counts exactly once |
| GoalCount.ComputeHeuristic | src/search/goal_count_heuristic.cc:22-30 | the loop returns the count, which lies in [0, \|goal\|] and is 0 exactly when every goal fact holds |
| MutexGroups.Parse | src/search/mutex_group.cc:8-24 | parsing succeeds exactly on well-formed tokens; a parsed group holds the num_facts facts in input order, with detected_fw true and exactly_one false |
| MutexGroups.Write | src/search/mutex_group.cc:8-24 | the tokens of a group: the two magic words, the count and two numbers per fact |
| MutexGroups.Pairs | src/search/mutex_group.cc:16-20 | the facts become their variable and value tokens, in order |
| MutexGroups.ParseWrite | src/search/mutex_group.cc:8-24 | round trip: what Write produces, followed by anything, is well formed and reads back the same facts |
| MutexGroups.HasPair | src/search/mutex_group.cc:26-33 | found exactly when some fact equals (var, val), and never for a group without facts |
| Clustering.FactoringClustersShape | src/search/merge_and_shrink/clustering_compliant_factoring.cc:20-24 | the leaves come first and unchanged, then one singleton per center variable in order |
| Clustering.FactoringClustersConcat | src/search/merge_and_shrink/clustering_compliant_factoring.cc:20-24 | read one after another, the clusters are the leaves' variables then the center variables |
| Clustering.FactoringClustersPartition | src/search/merge_and_shrink/clustering_compliant_factoring.cc:18-25 | the clusters mention every variable as often as the leaves and center do; when those partition the variables, so do the clusters |
| Clustering.Compute | src/search/merge_and_shrink/clustering_compliant_factoring.cc:18-40 | with a factoring the clustering is FactoringClusters, otherwise the strongly connected components given as input |

## Left out

- All CUDD diagram operations, such as Eval, Minimum, preBDD, getStateBDD, SupportIndices and getBinaryDescription, come from a foreign library. They are inputs or abstract values:
  - the heuristic diagram of the explicit lookup is an evaluation function plus a support;
  - the recursive lookup runs on a diagram datatype;
  - the state sets of getADD are sets of states;
  - an ADD of a leaf state is the list of facts it requires;
  - the price diagram of get_leaf_prices_ADD is its list of (leaf-state diagram, price) terms, not their minimum.
- get_member_states_price (prices_ADD.cc:91-108) and the ADD-operations lookup (lookup_add_decoupled_heuristic.cc:129-153) consist only of diagram arithmetic, so nothing of them is left once that is abstracted.
- PDBSearch::search, the uniform-cost searches, SymPDB and OriginalStateSpace are not visible, and they are driven by timers and memory limits. The same goes for the time and memory conditions of the pattern-growth loop, solved() inside it, and exp_fw/exp_bw->getPlan, which are inputs `fw` and `bw`.
- average_value, the 0.999 filter (gamer_pdbs_heuristic.cc:234-239) and the fallback by average value (255-263) compare floating-point averages. PatternGrows covers every outcome of that choice: the union of the selected children, or one selected child.
- The isinf and FindMin/FindMax asserts of prices_ADD.cc are diagram and floating-point checks.
- The time limit of mergeAux and the four-argument merge (utils::Timer, setTimeLimit) are left out. Only the maxTime == 0 behaviour of the three-argument merge is modelled. getData (sym_util.h) parses a stringstream and exits on failure.
- The internals of utils::RandomNumberGenerator are not modelled. The generator is the draw stream `rng`, and random(n) is its next draw modulo n.
- The causal graph and sccs::compute_maximal_sccs are inputs.
- Option parsing, plugin registration, dump_options and all logging are left out.
- The bit packer, the segmented arena, successor generation, state_registry.cc, symmetry permutations and subscribers have no visible bodies:
  - a packed record is a sequence of bins;
  - utils::HashState is the inputs `feed` and `hash32`;
  - lookup_leaf_state is the input `lookupLeaf`.
- StateRegistries.InsertOrPop: insert_id_or_pop_state is only declared (state_registry.h:234). Its contract follows its name: the candidate record is popped when an equal record is already registered. The registry's documentation instead speaks of the slot being kept as waste. The model follows the code's name.
- StateIds.NoStateDistinct: the value of no_state is defined in state_id.cc, which is not part of this model. It is taken to be SIZE_MAX.
- The effect semantics of does_fire come from operator.h, which is not part of this model. An effect fires when all its conditions hold.
- LookupRecursive.LookupRec: the walk carries no cache. `lookup_recursive` memoises its result per diagram node (`cache[f]`), keyed by the node alone, for one `lookup` call. That stored value is a function of the node only when each leaf factor's diagram variables are contiguous in the variable order. Then a node reached below an enumerated leaf node tests only center bits, which are fixed for the whole call, and bits of leaves that no enclosing loop has assigned. With interleaved leaf bits, a node can be reached under two assignments of an enclosing leaf and read a stale value. The model always gives the minimum over the leaf states, which is what the cached walk returns in the contiguous case.
- The mapping from diagram variables to leaves (leaf_bdd_var) is an input, `leafOfBit`.
- DEAD_END's numeric value is a constructor of HValue.
- GamerPdbs.FactoredHeuristicIs: the result of each lookup is taken as given and bounded by INT_MAX. The lookup that produces it is ExplicitHeuristic.Lookup.
- LookupExplicit.ComputeDecoupledValue: the double-to-int cast of Cudd_V is not modelled; the evaluation returns an integer terminal. `sum_prices + price` and `cost + recursive_result` are unbounded integers, so the model does not capture int overflow there.
- OptOrder.InfluenceGraph.SwapDelta: the delta loop (opt_order.cc:202-208) subtracts a swap index from a `size_t` position. That unsigned subtraction wraps around, but squaring gives the true square modulo 2^64. The model uses the integer square, which agrees with the source whenever the objective fits in a `long`.
- OptOrder.InfluenceGraph.ComputeFunction: compute_function and the optimisers use `long` arithmetic, which is unbounded here. For an empty order the source's bound `order.size() - 1` wraps around; ComputeFunction on its own returns 0 there, as that loop reads no entry. The callers below still require a nonempty order.
- OptOrder.InfluenceGraph.OptimizeVariableOrderingGamer, OptOrder.InfluenceGraph.ClimbIteration, OptOrder.InfluenceGraph.RestartIteration and OptOrder.InfluenceGraph.GetOrdering require a nonempty order. On an empty one the source calls `rng.random(0)` (src/search/symbolic/opt_order.cc:192-193), whose result is undefined, so these members do not model that case.
- GamerOrdering.LeafOrder, GamerOrdering.OrderLeaf, GamerOrdering.Factored and GamerOrdering.ComputeFactoredGamerOrdering require every leaf's variable list to be nonempty, duplicate-free and in range (LeafIn, LeavesOrderable). On an empty list the source draws from an empty range. On a duplicate, randomize (src/search/symbolic/opt_order.cc:159-181) skips every already placed copy and reads past the end of the list. These members do not model either case.
- globals.h, successor_generator_factory.h, stubborn_sets_ec.h, pdb_heuristic.h, gamer_pdbs_heuristic.h, lookup_add_decoupled_heuristic.h, pruning_method.cc, canonical_pdbs_heuristic.cc and the driver portfolios hold declarations, configuration or code outside this core.
