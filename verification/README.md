# Lorenz: detection, sizing and recording, verified

This project models the deterministic path of the Lorenz engine in Dafny and proves
properties of it: the negative-cycle detector that proposes arbitrage cycles, the integer
constant-product math and the search that size them, and the backtest that re-prices,
records and reports the trades.

`dafny verify dfyconfig.toml` checks everything.

| file | content |
|---|---|
| `Domain.dfy` | optional values, machine integers with checked arithmetic, token and pool ids, basis points |
| `Relaxation.dfy` | Bellman-Ford on numbered vertices: sweeps, labels, predecessor loops |
| `Routes.dfy` | edges, closed walks, weights and rate products, certificates |
| `Detector.dfy` | the class `ArbitrageGraph` and its search |
| `Disjoint.dfy` | the greedy searches for edge-disjoint and pool-disjoint cycles |
| `EdgeSharing.dfy` | when edge-disjoint cycles share an edge value after all |
| `Amm.dfy` | swaps, exact-output swaps, chains of swaps |
| `Moebius.dfy`, `Concavity.dfy` | the rational curve above a chain of swaps and the distance to it |
| `Search.dfy`, `SearchGuarantees.dfy` | the unimodal search and what it promises |
| `IntervalSearch.dfy` | when the search loses the interval its objective is feasible on |
| `ConcaveSearch.dfy` | how much the search loses on noisy samples of a concave curve |
| `Sizing.dfy` | sizing a cycle by its gross profit |
| `Unimodality.dfy` | when the gross profit is single-peaked and when it is not |
| `Dex.dfy` | pools: orientation, quotes, edges |
| `Repricing.dfy`, `Costs.dfy` | walking a cycle through exact pool math, the cost model, net profit |
| `NetSizing.dfy` | sizing a trade by its net profit: feasible sizes, completeness, distance to the best |
| `Report.dfy`, `Ranking.dfy` | the report's totals and the ranking of its records |
| `Backtest.dfy` | snapshots, records and the whole run |
| `SampleMarket.dfy` | the test market of the backtest and the figures its quotes and costs come to |
| `MissedTrade.dfy` | a family of markets whose profitable cycle the run finds and never records |

## How the program is read

* Edge rates and distances are real numbers; the detector's `-ln` is a parameter `weight`.
  Results about weights hold for every `weight`; results about rate products ask for
  `NegLog(weight)`, the two facts about the negated logarithm the detector relies on (it
  turns products into sums and is negative exactly above 1). The guard `1e-12` is the
  parameter `eps >= 0` of the detector; the backtest passes the constant `EPSILON`.
* `u128`, `i128`, `u64` and `u32` are subset types. Every checked multiplication and
  addition is written out, with `None` for overflow. The plain operators of the cost model
  are modelled the same way, and `Costs.CostNeverOverflows` and `Costs.NetIsExact` show
  that on the sizes the backtest can reach none of them overflows.
* The `usize::MAX` marker of an unused predecessor slot is `NO_ARC`, which like the marker
  is no position of any edge list.
* `HashMap` is a Dafny `map`. A later pool with the same id replaces an earlier one in the
  map while both keep their edges in the graph, as in the program; where uniqueness of ids
  matters it is an explicit hypothesis.
* The stages of `find_arbitrage` (the rounds, the walk back, the reconstruction) are
  separate methods of the class, as are the stages of `maximize_unimodal` and
  `run_backtest`. The three exits of `find_arbitrage` that give up after the rounds, the
  zero-removal exit of the greedy loop, and the second failed simulation of the backtest
  stand in the code with `assert false`: they are proved unreachable.

## Where the program's comments and its code disagree

The model follows the code.

* `maximize_unimodal` documents `None` only when no input is feasible. That is not so for
  every objective: `SearchGuarantees.FarEndIsMissed`. `SearchGuarantees.NoneExactly` says
  when it is `None`: exactly when nothing within 1024 of the final bracket is feasible. With
  feasibility a prefix of the range the documented reading holds (`PrefixNone`); the gross
  profit is such an objective (`Sizing.GrossSearchIsComplete`).
* `run_backtest` calls the net profit unimodal and its search the way to the optimum. Its
  feasible sizes are an interval (`NetSizing.NetFeasibleBetween`) that need not begin at 1,
  because a small size floors to nothing. Whether the search misses the whole interval
  depends on its two ends and the cap alone (`NetSizing.NetMissedExactly`); when the cap is
  feasible two simulations tell, of the size two thirds up to the cap and of the last size
  of the blind search (`NetSizing.NetNoneExactly`). When the narrowing keeps the interval,
  again a matter of its ends, the recorded net profit is within 217 times the slack of the
  legs plus two of the best (`NetSizing.NetSearchIsNearOptimal`); an interval that contains
  the size two thirds up to its end is kept (`IntervalSearch.TwoThirdsKeep`). On the markets
  of `MissedTrade.Hidden` the interval is lost and the claim with it: every run finds the
  cycle and records nothing (`MissedTrade.RunMissesEverything`), although at the cap it
  grosses at least the square of the cap (`MissedTrade.ProfitableCycleIsMissed`,
  `MissedTrade.MissedGross`).
* `optimal_cycle_size` calls the floored gross profit concave and unimodal. For one leg that
  is so exactly when it charges no fee or is not steep, a test on its reserves, its fee and
  the cap (`Unimodality.LegIsUnimodalExactly`). A cycle is not unimodal exactly when it stands
  still at some size and a later size makes more than the one right after it
  (`Unimodality.CycleIsUnimodalExactly`); it stands still wherever some of its first legs do,
  a first leg with a fee of f points at size 10000/f, one without where its own curve is
  flat. What holds for every cycle is that the gross profit stays within a computable slack
  below a concave curve, and that the search loses at most 217 times that slack
  (`Sizing.SizingErrorIsBounded`).
* `amount_in_for_exact_out` promises an input whose swap yields the request. The swap of the
  quoted input can overflow (`Amm.QuoteCanBeUnpriced`); it yields the request exactly when
  none of its three intermediate results does (`Amm.ExactOutRoundTrip`).
* `find_disjoint_arbitrage` promises cycles that share no edge value. It removes one copy
  per match, so copies can be used again. The model leaves open which of several cycles
  the detector picks; under a cap of at least two a run that shares exists exactly when
  two sound cycles share an edge value and fit into the edge list together, copies counted
  (`EdgeSharing.SharingExactly`). No run short of its cap avoids sharing when some light
  closed walk has all its edges twice (`EdgeSharing.DoubledWalkIsShared`). What holds for
  every edge list is conservation of the edge multiset (`Disjoint.EdgesConserved`), so
  without duplicates the promise is kept (`EdgeSharing.SharedEdgeIsDuplicated`).
* docs/architecture/07-backtester.md describes one fixed-size cycle per snapshot; the code
  sizes up to eight pool-disjoint cycles.

## Model

| member | source | states |
|---|---|---|
| Detector.ArbitrageGraph.Intern | crates/lorenz-graph/src/lib.rs:54-62 | tokens keep their numbers, a new token gets the next one, and `index` stays the exact inverse of `tokens` |
| Detector.ArbitrageGraph.AddEdge | crates/lorenz-graph/src/lib.rs:65-72 | an edge of non-positive rate changes nothing; any other is appended and its two tokens are interned, source first, with every known token keeping its number |
| Detector.ArbitrageGraph.FindArbitrage | crates/lorenz-graph/src/lib.rs:87-154 | a returned cycle is a closed simple walk of the graph lighter than -eps whose product exceeds 1; no cycle means every closed walk of k edges weighs at least -k*eps; and there is no cycle exactly when the graph is empty or one of the first n sweeps changes no distance, so giving up after the rounds is impossible |
| Detector.ArbitrageGraph.RelaxRounds | crates/lorenz-graph/src/lib.rs:101-114 | n rounds that all relax something leave a vertex last updated in round n; a round that relaxes nothing certifies the whole graph |
| Detector.ArbitrageGraph.RelaxAll | crates/lorenz-graph/src/lib.rs:102-113 | one in-place pass over the edges equals the sweep function, and reports no update exactly when nothing was relaxable |
| Detector.ArbitrageGraph.ExtractCycle | crates/lorenz-graph/src/lib.rs:116-153 | from a token updated in the last round the walk back and the reconstruction always end in a sound cycle |
| Detector.ArbitrageGraph.StepIntoCycle | crates/lorenz-graph/src/lib.rs:118-125 | the walk back of n steps never meets a token without a predecessor |
| Detector.ArbitrageGraph.Reconstruct | crates/lorenz-graph/src/lib.rs:129-147 | following predecessors from a vertex on a loop returns to it, and yields the edges up to the first return in forward order |
| Relaxation.RelaxKeepsLoopsNegative | crates/lorenz-graph/src/lib.rs:106-109 | after any in-place relaxation every closed loop of recorded predecessor edges still weighs less than -eps |
| Relaxation.LabelsRelax | crates/lorenz-graph/src/lib.rs:106-110 | a relaxation keeps the labels: predecessor edges span drops, sources lag at most one round behind, re-relaxable edges have fresh sources, loops are negative |
| Relaxation.BackFromRound | crates/lorenz-graph/src/lib.rs:118-125 | a vertex updated in round r has r predecessors in a row |
| Relaxation.WalkEndsOnLoop | crates/lorenz-graph/src/lib.rs:116-125 | n steps back from a vertex updated in round n end on a loop of at most n edges, all with predecessors |
| Relaxation.FirstReturnDistinct | crates/lorenz-graph/src/lib.rs:129-141 | up to the first return the walk back meets no vertex twice |
| Relaxation.Telescope | crates/lorenz-graph/src/lib.rs:106-109 | a chain of predecessor edges weighs at most the drop it spans, and eps less when it contains the edge being relaxed |
| Detector.TrailIsSound | crates/lorenz-graph/src/lib.rs:127-153 | the reconstructed edges are closed, simple, within the graph and lighter than -eps |
| Detector.CertifyFromLabels | crates/lorenz-graph/src/lib.rs:112-113 | distances that no edge improves by more than eps certify every closed walk of the graph |
| Routes.NegativeWeightIsProfit | crates/lorenz-graph/src/lib.rs:8-11 | summed weights are negative exactly when the product of the rates exceeds 1 |
| Routes.SoundIsProfitable | crates/lorenz-graph/src/lib.rs:149-153 | the product of a returned cycle exceeds 1 |
| Routes.ExactWithoutSlack | crates/lorenz-graph/src/lib.rs:82-87 | with eps = 0 a cycle is found exactly when some closed walk of the graph has a rate product above 1 |
| Disjoint.AccumulateDisjoint | crates/lorenz-graph/src/lib.rs:250-286 | every cycle is sound in the edges the earlier ones left; the run stops at the cap or with a certificate for what is left; no more cycles than edges; the zero-removal exit is never taken |
| Disjoint.FindDisjointArbitrage | crates/lorenz-graph/src/lib.rs:177-191 | sound cycles whose edges together are a sub-multiset of the graph's edges, at most the cap and the edge count |
| Disjoint.FindPoolDisjointArbitrage | crates/lorenz-graph/src/lib.rs:228-238 | sound, pairwise pool-disjoint cycles; a run short of the cap leaves no closed walk over unused pools below -k*eps |
| Disjoint.PruneOwnEdges | crates/lorenz-graph/src/lib.rs:181-190 | removes the first copy of each edge of the cycle and counts the removals |
| Disjoint.PruneWholePools | crates/lorenz-graph/src/lib.rs:232-237 | keeps in order exactly the edges off the cycle's pools and counts the others |
| Disjoint.PruningShrinks | crates/lorenz-graph/src/lib.rs:211-216 | accepting a sound cycle always removes at least one edge, under both pruning rules |
| Disjoint.RunIsShort | crates/lorenz-graph/src/lib.rs:173-174 | cycles plus remaining edges never exceed the original edges |
| Disjoint.EdgesConserved | crates/lorenz-graph/src/lib.rs:177-191 | the edges of all returned cycles and the remaining edges are together exactly the original edge multiset |
| EdgeSharing.SharedCyclesOverlap | crates/lorenz-graph/src/lib.rs:156-158 | two returned cycles that share an edge value are both sound in the graph and fit into its edge list together |
| EdgeSharing.SharedEdgeIsDuplicated | crates/lorenz-graph/src/lib.rs:156-158 | an edge value in two returned cycles occurs at least twice in the graph |
| EdgeSharing.SharingExactly | crates/lorenz-graph/src/lib.rs:156-191 | some complete run shares an edge value exactly when the cap is at least 2 and two sound cycles share one while their edges together are a sub-multiset of the graph's |
| EdgeSharing.DoubledWalkIsShared | crates/lorenz-graph/src/lib.rs:156-191 | in every run short of its cap two cycles share an edge of any closed walk that is lighter than -eps per edge and has each of its edges at least twice in the graph |
| EdgeSharing.LightWalkHasSoundCycle | crates/lorenz-graph/src/lib.rs:82-87 | a closed walk lighter than -eps per edge contains a simple cycle lighter than -eps |
| Disjoint.RunIsPoolDisjoint | crates/lorenz-graph/src/lib.rs:193-202 | no two cycles of a pool-pruned run share a pool |
| Disjoint.RemainingAvoidsUsedPools | crates/lorenz-graph/src/lib.rs:204-209 | the remaining edges are exactly those on pools no accepted cycle uses |
| Disjoint.ShortRunLeavesNothing | crates/lorenz-graph/src/lib.rs:262-272 | a run short of its cap certifies every closed walk that avoids the used pools |
| Amm.CpmmReserves.AmountOut | crates/lorenz-amm/src/lib.rs:44-55 | a priced output is strictly below a positive output reserve |
| Amm.SwapIsDoubleFloor | crates/lorenz-amm/src/lib.rs:30-55 | a priced swap is the floor of in*(10000 - fee)/10000 followed by the floor of rout*a/(rin + a), stated by the two products that bracket it |
| Amm.CurvesAreAdjoint | crates/lorenz-amm/src/lib.rs:57-111 | in unbounded arithmetic every input, priced or not, yields at least y exactly when it is at least the input quoted for y |
| Amm.QuotedExactly | crates/lorenz-amm/src/lib.rs:80-111 | a positive request is quoted exactly when some input yields it and the two products of the inverse fit u128 |
| Amm.SwapsAreAdjoint | crates/lorenz-amm/src/lib.rs:57-111 | an input buys at least y exactly when it is at least the input quoted for y |
| Amm.ExactOutRoundTrip | crates/lorenz-amm/src/lib.rs:77-111 | one unit less than the quote never clears the request; the quote clears it exactly when its swap is priced, that is when x*f, rout*a and rin+a fit u128 for the after-fee amount a the inverse computed |
| Amm.QuoteLeavesNeeded | crates/lorenz-amm/src/lib.rs:69-75 | the quoted input leaves after the fee exactly the amount the inverse asked for |
| Amm.QuoteCanBeUnpriced | crates/lorenz-amm/src/lib.rs:77-82 | a family of pools and requests that are quoted although the swap of the quote overflows |
| Amm.ExactOutMonotone | crates/lorenz-amm/src/lib.rs:83-111 | a quoted request is quoted for every smaller one, at no more input |
| Amm.SwapMonotone | crates/lorenz-amm/src/lib.rs:44-55 | a priced swap is priced for every smaller input, for no more output |
| Amm.ComputeCycleOutput | crates/lorenz-amm/src/lib.rs:138-144 | the loop over the legs computes the chained swap |
| Amm.CycleMonotone | crates/lorenz-amm/src/lib.rs:138-144 | feasibility of a whole cycle is downward closed and its output follows its input |
| Amm.CycleComposes | crates/lorenz-amm/src/lib.rs:132-144 | the chain over two lists of legs is the chain over the second fed by that over the first |
| Moebius.CycleBelowCurve | crates/lorenz-amm/src/lib.rs:138-144 | output * (B + C*x) <= A*x for the coefficients folded from the legs |
| Moebius.FoldStep | crates/lorenz-amm/src/lib.rs:138-144 | one more leg makes the coefficients rout*f*A, rin*10000*B and rin*10000*C + f*A |
| Moebius.CycleNearEnvelope | crates/lorenz-amm/src/lib.rs:138-144 | the output of positive legs is at most the folded slack below A*x/(B + C*x) |
| Moebius.ProfitableSizeBound | crates/lorenz-amm/src/lib.rs:247-285 | a profitable size satisfies C*x < A - B |
| Moebius.EnvelopeConcave | crates/lorenz-amm/src/lib.rs:253-256 | the curve above the gross profit is concave |
| Search.MaximizeUnimodal | crates/lorenz-amm/src/lib.rs:165-245 | the answer is the best feasible input of one contiguous interval around the final bracket, each end of which is the end of the range or the first stall of 1024 inputs; of equal bests it is the one visited first |
| Search.SearchHasOneOutcome | crates/lorenz-amm/src/lib.rs:163-164 | that contract determines the answer: the search is deterministic |
| Search.Narrow | crates/lorenz-amm/src/lib.rs:184-195 | the narrowing loop ends with the bracket of the narrowing function |
| Search.ScanWindow | crates/lorenz-amm/src/lib.rs:197-219 | the scan finds the first best input of the bracket |
| Search.WalkLeft | crates/lorenz-amm/src/lib.rs:223-232 | the walk down stops at input 1 or at the first 1024 inputs that improve on nothing after them |
| Search.WalkRight | crates/lorenz-amm/src/lib.rs:233-242 | the walk up stops at the maximum input or at the first 1024 inputs that improve on nothing before them |
| SearchGuarantees.CoversNeighbourhood | crates/lorenz-amm/src/lib.rs:221-242 | no input within 1024 of the final bracket beats the answer, for any objective |
| SearchGuarantees.ExactOnShortRange | crates/lorenz-amm/src/lib.rs:165-245 | for ranges up to 1025 the answer is the exact maximum of any objective |
| SearchGuarantees.NoneExactly | crates/lorenz-amm/src/lib.rs:162-164 | None exactly when the range is empty or nothing within 1024 of the final bracket is feasible |
| SearchGuarantees.FarEndIsMissed | crates/lorenz-amm/src/lib.rs:162-164 | an objective feasible only at the far end of a range above 1089 is answered None |
| SearchGuarantees.PrefixNone | crates/lorenz-amm/src/lib.rs:162-164 | with feasibility a prefix, None exactly when nothing is feasible |
| SearchGuarantees.ExactOnFlatTop | crates/lorenz-amm/src/lib.rs:182-219 | on a rising, flat, falling objective feasible on a prefix the answer is a point of the plateau and a true maximum |
| IntervalSearch.UpwardNoneExactly | crates/lorenz-amm/src/lib.rs:162-164 | feasible from some size to the end of the range, the search is None exactly when two sizes known beforehand are infeasible |
| IntervalSearch.KeptIsFound | crates/lorenz-amm/src/lib.rs:162-164 | an interval the narrowing keeps is never answered None |
| IntervalSearch.TwoThirdsKeep | crates/lorenz-amm/src/lib.rs:186-195 | an interval that contains the size two thirds up to its end is kept, for any range |
| IntervalSearch.IntervalNoneExactly | crates/lorenz-amm/src/lib.rs:162-164 | an objective feasible exactly on an interval is answered None exactly when the narrowing computed from the ends of the interval loses it, whatever the values |
| ConcaveSearch.DroppedThirdCostsLittle | crates/lorenz-amm/src/lib.rs:186-195 | on samples at most delta below a concave curve, feasible on an interval the right probe is not short of, dropping a third lowers the feasible height by at most delta |
| ConcaveSearch.NearOptimalOnConcave | crates/lorenz-amm/src/lib.rs:184-244 | on such samples, when the narrowing computed from the ends keeps the interval, the answer is within (rounds + 1) * delta of the curve at every feasible input |
| ConcaveSearch.SearchLosesLittle | crates/lorenz-amm/src/lib.rs:165-245 | and so within 217 * delta of the best value, for any range |
| SearchGuarantees.WidthShrinks | crates/lorenz-amm/src/lib.rs:186-195 | 3^k * (w' - 2) <= 2^k * (w - 2) after the k rounds |
| SearchGuarantees.RoundsAtMost216 | crates/lorenz-amm/src/lib.rs:186-195 | no search over u128 inputs narrows more than 216 times |
| Sizing.OptimalCycleSize | crates/lorenz-amm/src/lib.rs:268-285 | a returned size lies in the range, its output is the cycle's and exceeds it; the answer is the search outcome filtered to positive gross |
| Sizing.GrossExactly | crates/lorenz-amm/src/lib.rs:273-277 | the objective is defined exactly where the swaps are priced and output and input fit i128, and is then their difference |
| Sizing.FlatCurveIsNeverSized | crates/lorenz-amm/src/lib.rs:258-261 | A <= B implies None |
| Sizing.SymmetricLegIsNeverSized | crates/lorenz-amm/src/lib.rs:258-261 | one pool with equal reserves is never sized, for any fee and range |
| Sizing.ExactSizingOnShortRange | crates/lorenz-amm/src/lib.rs:263-285 | for ranges up to 1025 no size the swaps can price makes more than the answer |
| Sizing.SizingIsNearOptimal | crates/lorenz-amm/src/lib.rs:253-285 | for positive legs and any cap the gross found is within (rounds + 1) slacks of output minus input at every size the swaps can price |
| Sizing.SizingErrorIsBounded | crates/lorenz-amm/src/lib.rs:253-285 | for every cycle and cap the gross found is within 217 slacks of output minus input at every priced size; with a leg that is not positive every such size loses and nothing is sized |
| Sizing.GrossSearchIsComplete | crates/lorenz-amm/src/lib.rs:273-279 | the search behind the sizing is None exactly when the swaps can price no size of the range within i128 |
| Unimodality.FlatEndsJumps | crates/lorenz-amm/src/lib.rs:44-55 | once the floored curve of a swap stands still it never again rises by two |
| Unimodality.JumpWithinExactly | crates/lorenz-amm/src/lib.rs:44-55 | the closed form for whether the floored curve still rises by two in a range |
| Unimodality.FreeLegIsUnimodal | crates/lorenz-amm/src/lib.rs:253-256 | under any cap the gross profit of a leg without a fee never rises after it fell |
| Unimodality.LegIsUnimodalExactly | crates/lorenz-amm/src/lib.rs:253-256 | under any cap the gross profit of one leg falls and rises again exactly when it charges a fee and passes an arithmetic test on reserves, fee and largest priced size |
| Unimodality.StandstillFalls | crates/lorenz-amm/src/lib.rs:253-256 | the gross profit of a cycle falls wherever its first k legs, for some k, give two sizes in a row the same amount |
| Unimodality.StandstillBreaksUnimodality | crates/lorenz-amm/src/lib.rs:253-256 | and it falls and rises again as soon as some later size makes more |
| Unimodality.CycleIsUnimodalExactly | crates/lorenz-amm/src/lib.rs:253-256 | the gross profit of a cycle of any length falls and rises again within a range exactly when some size of it makes more than the size right after an earlier standstill of the chain |
| Unimodality.FeeBreaksUnimodality | crates/lorenz-amm/src/lib.rs:253-256 | a cycle whose first leg charges f points does so at size 10000/f |
| Unimodality.FlatStepBreaksUnimodality | crates/lorenz-amm/src/lib.rs:253-256 | a cycle whose first leg has a flat step does so there, without any fee |
| Unimodality.FreeLegsTogetherAreNotUnimodal | crates/lorenz-amm/src/lib.rs:253-256 | two concrete fee-free legs, each single-peaked, whose cycle falls and rises again |
| Unimodality.GrossIsNotUnimodal | crates/lorenz-amm/src/lib.rs:253-256 | a concrete leg whose gross profit falls and rises again |
| Dex.CpmmPool.Edges | crates/lorenz-dex/src/lib.rs:60-80 | the edges of both directions in order, each only with a positive rate |
| Dex.QuoteMirrors | crates/lorenz-dex/src/lib.rs:48-58 | a quote is the same when the sides of the pool are named the other way round |
| Dex.QuoteIsConstantProduct | crates/lorenz-dex/src/lib.rs:48-58 | a quote is the doubly floored constant product of the spent side's reserve and the other side's |
| Dex.EdgesInOrder | crates/lorenz-dex/src/lib.rs:60-80 | one edge per direction with a positive quote, A to B first, and no others |
| Dex.EdgesAreFair | crates/lorenz-dex/src/lib.rs:48-80 | an emitted edge joins the pool's two tokens, and for distinct tokens its rate is the floored constant product in its direction, bounded from both sides |
| Dex.PoolRatesLose | crates/lorenz-dex/src/lib.rs:60-80 | the two directions of one pool reverse each other and their rates multiply to less than 1 |
| Repricing.SimulateCycle | crates/lorenz-backtest/src/lib.rs:123-153 | the loop computes the priced rotation of the cycle |
| Repricing.RepricingRefines | crates/lorenz-backtest/src/lib.rs:134-152 | pricing succeeds exactly when every pool resolves and the chained swap over the oriented reserves is priced and positive, with the same output |
| Repricing.LegsPointwise | crates/lorenz-backtest/src/lib.rs:136-140 | the legs resolve exactly when every edge's pool is known and trades its token, and are those pools' oriented reserves edge by edge |
| Repricing.HopAmounts | crates/lorenz-backtest/src/lib.rs:144-152 | each hop takes in and hands out what the chained swap yields before and after it, saturated to u64 |
| Repricing.SimulationIsRoundTrip | crates/lorenz-backtest/src/lib.rs:129-152 | a simulated closed cycle runs from base to base over a rotation of its edges, each hop fed by the one before |
| Repricing.RotationIsClosed | crates/lorenz-backtest/src/lib.rs:129-137 | a rotated closed cycle is closed over the same edges |
| Costs.CostIsTwoFloors | crates/lorenz-backtest/src/lib.rs:80-87 | a cost is the floor of the flash-loan share, the floor of the slippage share over all hops, and the two fixed fees |
| Costs.CostIsExactToTwoUnits | crates/lorenz-backtest/src/lib.rs:77-88 | apart from the fixed fees the cost is the exact fraction notional * (flash + slippage * hops) of basis points, short by less than two units |
| Costs.CostMonotone | crates/lorenz-backtest/src/lib.rs:77-88 | costs grow with the size and with the hops |
| Costs.CostNeverOverflows | crates/lorenz-backtest/src/lib.rs:80-87 | for u64 sizes and fewer than 2^32 hops the cost is computed without overflow and fits i128 |
| Costs.NetIsExact | crates/lorenz-backtest/src/lib.rs:194-200 | there the net profit is exactly output minus input minus cost, missing only when the simulation fails or its output leaves i128 |
| NetSizing.NetFeasibleExactly | crates/lorenz-backtest/src/lib.rs:194-200 | a u64 size is feasible exactly when the chained swap yields something that fits i128, and the net profit is then output minus size minus cost |
| NetSizing.NetFeasibleBetween | crates/lorenz-backtest/src/lib.rs:194-200 | every size between two feasible ones is feasible |
| NetSizing.NetMissedExactly | crates/lorenz-backtest/src/lib.rs:185-203 | for any cap no size is found exactly when the narrowing, computed from the smallest and the largest feasible size alone, loses the sizes between them |
| NetSizing.NetNoneExactly | crates/lorenz-backtest/src/lib.rs:185-203 | with a feasible cap no size is found exactly when the size two thirds up to the cap and the last size of the blind search are infeasible |
| NetSizing.NetNearEnvelope | crates/lorenz-backtest/src/lib.rs:185-191 | the net profit stays within the slack of the legs plus two below a concave curve |
| NetSizing.NetSearchIsNearOptimal | crates/lorenz-backtest/src/lib.rs:185-203 | when the narrowing computed from the smallest and the largest feasible size keeps the sizes between them, the net profit found is within (rounds + 1), at most 217, times that slack of the net profit of every feasible size |
| Backtest.BuildSnapshot | crates/lorenz-backtest/src/lib.rs:166-174 | the graph holds exactly the edges of all pools in order, and the map the last pool of each id |
| Backtest.SnapshotEdgesExactly | crates/lorenz-backtest/src/lib.rs:168-173 | an edge is in the graph of a snapshot exactly when it is a direction of one of its pools with a positive quote, at the rate quoted for the probe size |
| Backtest.SnapshotEdgesConcat | crates/lorenz-backtest/src/lib.rs:168-173 | the edges of a list of pools followed by another are the edges of the one followed by those of the other |
| Backtest.PoolIsFound | crates/lorenz-backtest/src/lib.rs:173 | a pool no later one replaces is found under its id |
| Backtest.FoundIsLastPool | crates/lorenz-backtest/src/lib.rs:173 | what is found under an id is the last pool with it |
| Backtest.CandidateIsPoolCycle | crates/lorenz-backtest/src/lib.rs:168-183 | every candidate is a closed walk through quoted directions of the snapshot's pools lighter than -1e-12 |
| Backtest.SnapshotCertifies | crates/lorenz-backtest/src/lib.rs:168-183 | with fewer than 8 candidates every closed walk of k quoted directions of unused pools weighs at least -k * 1e-12 |
| Backtest.ProfitIsFound | crates/lorenz-backtest/src/lib.rs:168-183 | a closed walk of k quoted directions of the pools lighter than -k * 1e-12 means a candidate |
| Backtest.DetectedCycleFailsExactly | crates/lorenz-backtest/src/lib.rs:129-143 | with unique pool ids the pools and tokens of a detected cycle through the base always resolve, and its simulation fails exactly when the chained swap is unpriced or yields nothing |
| Backtest.CycleSpendsPoolsOnce | crates/lorenz-backtest/src/lib.rs:176-181 | with unique pool ids a profitable simple cycle uses no pool twice |
| Backtest.SnapshotSpendsPoolsOnce | crates/lorenz-backtest/src/lib.rs:176-182 | with unique pool ids no pool occurs in two hops of a snapshot's records |
| Backtest.SizeAndRecord | crates/lorenz-backtest/src/lib.rs:192-237 | the record's size is the search's optimum in 1..=max_position, its net profit the value found there, gross and costs those of the same size, and the casts change nothing; without a record the search found no feasible size |
| Backtest.RecordIsRoundTrip | crates/lorenz-backtest/src/lib.rs:205-237 | a record's route runs base to base, starts with its notional and threads its amounts |
| Backtest.RecordIsChainedSwap | crates/lorenz-backtest/src/lib.rs:205-211 | a record's gross profit is that of the chained swap, and a positive one lies below the break-even point of the folded curve |
| Backtest.OutcomeIsNearOptimal | crates/lorenz-backtest/src/lib.rs:185-237 | under the same condition the cycle is recorded and the record nets as much as any size would, up to that loss |
| Backtest.RunSnapshot | crates/lorenz-backtest/src/lib.rs:165-238 | a snapshot adds the outcomes of a complete pool-disjoint run and keeps the report consistent |
| Backtest.RunBacktest | crates/lorenz-backtest/src/lib.rs:159-242 | over every market the report is consistent, its records are exactly those of the snapshots' runs in order, each probed at the smaller of notional and position cap, and records <= candidates <= 8 per snapshot |
| MissedTrade.ProfitableCycleIsMissed | crates/lorenz-backtest/src/lib.rs:185-203 | on a family of two-pool snapshots every run finds a candidate and records nothing, while the candidate nets half the exit reserve less cap and costs at the cap |
| MissedTrade.RunMissesEverything | crates/lorenz-backtest/src/lib.rs:159-203 | a whole backtest over such snapshots counts a candidate in each and has no record |
| SampleMarket.TriangleBacktest | crates/lorenz-backtest/src/lib.rs:316-373 | with the test's three pools, notional and position cap every backtest has a candidate in the snapshot |
| Report.Record | crates/lorenz-backtest/src/lib.rs:212-237 | adding a record keeps every total what its name says: gross over all records, net and count over those reaching the threshold, best and worst, histogram |
| Report.HistogramCountsRecords | crates/lorenz-backtest/src/lib.rs:228 | the counts of a consistent report's histogram add up to the number of its records |
| Ranking.TopByNetProfit | crates/lorenz-backtest/src/lib.rs:249-256 | the first n of the ranking by net profit with ties by position; every record left out is outranked by every one returned |

## Left out

* f64 rounding, `spot_price` and `submission_rate`: floating-point analytics; rates are exact
  quotients and weights are real.
* Determinism of the detector as a function: the contract says what the returned cycle is,
  not which of several negative cycles the edge order selects.
* Backtest.RunBacktest: the report's counters and sums are unbounded integers; their usize
  and i128 widths are not modelled.
* Report.BacktestReport is a value updated step by step, not an object on the heap.
* The greedy searches are module methods over a graph, not methods of its class.
* Ranking: the standard library's stable sort is modelled by insertion.
* `PoolSnapshot.to_pool` and the `dex` tag copy fields; JSON parsing, the binary, streaming,
  telemetry and configuration parsing are outside the model.
* The concentrated-liquidity pool (`clmm.rs`) and the account decoder (`decoder.rs`).
* The agent crate (caps, kill switch, ledger) and the on-chain program, whose swap path is
  not implemented.
