# Exact decoding, its state and its algebra

A Dafny model of the parts of sicada and its speech decoder that are hardest to get
right, with proofs that each fast form is the simple thing it stands for.

- **The trellis solvers.** `Trellis` states what a trellis is, which paths it has and
  what its band covers; `Traceback` packs codes into bits; `BestPath` finds the cheapest
  path with two score rows that are swapped and never cleared; `PathFrames` reads a path
  frame by frame. `PathMass` weighs all paths, `Reversal` reads a trellis backwards,
  `LogSum` folds a cell's transitions, and `ForwardPass` and `Posteriors` are the
  forward-backward, over `Sums`. `Expectations` says what a caller who adds its answers
  up obtains, and `Occupancy` adds them up over an alignment chain.
- **Alignment.** `Align` is a chain of phones as a trellis and the alignment read back;
  `AlignCosts` accounts for its cost by exchanging paths; `AlignFst` is the same chain as
  an FST, in one-to-one correspondence.
- **Frame-synchronous decoding.** `DecodingGraph` says what the composition of a graph
  and a matrix of scores is; `Frontier`, `Beam`, `Viterbi`, `Lattice` and
  `LatticePaths` search it without building it, and say what a beam is sure to keep and
  sure to drop. `Ctc` is the graph a CTC model starts from, and `CompactLattice`
  moves a lattice's frames into its weights.
- **The cache.** `HybridIndexMap`, `LinkedSlots`, `CacheStore` and `Cache`: a slab, an
  index, a linked list and a sweeping hand, behind queries that never show it.
- **Queues.** `OrderQueues` and `SccQueues`, the `Heap` under the lightest-first ones,
  and `ShortestDistance`, the loop whose answer no queue can change.
- **Matchers.** `Matchers` looks arcs up by label, by halving or by a table;
  `ImplicitMatchers` are the wrappers in which other arcs stand in for a label.
- **Property bits.** `Properties`, `PropertyCache`, `Routes`, `FstFacts`,
  `StateDeletion` and `VectorFst`: every bit claimed stays true through every mutation.
- **Weights.** `LatticeWeights` and `CompactLatticeWeights`.

`Costs` and `FiniteSets` are shared by all of them.

Costs are exact: a real number, or the infinity that marks what is not there. Smaller is
better. Loops and objects that the source updates in place are methods and classes here;
what is proved of them is stated over functions and predicates of the values they hold.

A path *stays near* if after each frame it is within the beam of every path there is, and
no more states than the cap are reached for less: the beam is sure to keep it. The beam
*drops* a path that after some frame is beyond the beam of a path that is surely tried, or
costs more than paths surely tried to more states than the cap. What a decoder answers is
told by these, whatever the options (`Viterbi.ViterbiDecode`, `Lattices.LatticeDecode`).

Where code and documentation differ the model follows the code:

- An alignment is documented never to hold a phone it skipped. That is so exactly when no
  skip costs zero (`AlignmentCosts.NeverHeldIffNoSkipIsFree`). Its cost is right either
  way (`AlignmentCosts.CostIsHeardPlusSkipped`).
- The trellis contract lets an infinite-cost transition name any advance, but the solver
  subtracts every transition's advance from the padded index. `Trellis.Lawful` therefore
  asks that an absent transition advance at most `reach + position`, as `ABSENT` does.
- The lattice's settling step is described as settling, pruning and settling again; it
  prunes, settles, and prunes again if the cap is exceeded.
- The beam's cap keeps every token at or under the cost of that rank, so more than the cap
  may survive; `Frontiers.Prune` says exactly what does.
- Listing every arc that consumes nothing goes through the labels treated as epsilon one
  by one. Where `no_label` is itself among them, the epsilon arcs come up twice
  (`ImplicitMatchers.ListsOnce`).
- A frame's silence and the blank column's posterior are the same only where no phone
  has the blank's column (`Occupancies.CollectedBalances`).
- Reading compact weights backwards does not distribute over ⊕ when cost and length tie
  and the labels read the other way round
  (`CompactLatticeWeights.ReverseDistributesUnlessFlipped`).

## Model

| member | source | states |
|---|---|---|
| Trellises.BandMoves | sicada-decode/src/trellis.rs:279-284 | From one frame to the next both ends of the band move up by at most one reach, and the top never passes the last position |
| Trellises.BackwardStaysAbove | sicada-decode/src/trellis.rs:390-392 | A transition into the next frame's band never reads below this frame's band, which is why rows need no clearing |
| Trellises.BandIsSound | sicada-decode/src/trellis.rs:270-284 | No complete path ever stands outside the band |
| Trellises.BandIsExact | sicada-decode/src/trellis.rs:270-284 | For a trellis that uses every advance its reach allows, a cell is in the band if and only if some complete path passes through it |
| PathFrames.PathByFrames | sicada-decode/src/trellis.rs:404-411 | A path, defined from its end, is exactly a list of hops each of which starts where the one before it ended |
| PathFrames.CostByFrames | sicada-decode/src/trellis.rs:366-394 | A path's cost is the sum over its frames of the transitions taken |
| Tracebacks.SetCell | sicada-decode/src/trellis.rs:819-829 | OR-ing a code into an empty cell of a byte sets that cell and leaves every other cell of the byte alone, for each packing |
| Tracebacks.CellOrder | sicada-decode/src/trellis.rs:796-800 | Consecutive positions fall in consecutive cells and bytes, in order, for the four packings |
| Tracebacks.CodeFits | sicada-decode/src/trellis.rs:754-761 | Every code below the degree fits the bits `code_bits` gives it |
| Tracebacks.Traceback.RowsApart | sicada-decode/src/trellis.rs:784-793 | Bytes that differ only inside one frame's row leave what every other frame reads unchanged |
| Tracebacks.RowWriter.Put | sicada-decode/src/trellis.rs:819-829 | Putting the next position of a contiguous run extends what the row, finished and pending, reads back by that code, and touches only its own row |
| Tracebacks.RowWriter.Finish | sicada-decode/src/trellis.rs:832-836 | After finishing, the plane itself reads back every code put, at its position |
| Tracebacks.PutPacks | sicada-decode/src/trellis.rs:819-829 | One put keeps the packed byte, the pending flag and the bytes already stored reading as the codes written so far |
| BestPaths.CodeAttainsBest | sicada-decode/src/trellis.rs:371-386 | The code kept for a cell attains its best cost and is the least code that does: every lesser code costs strictly more |
| BestPaths.BestIsLeast | sicada-decode/src/trellis.rs:344-418 | No path to a cell costs less than the value the recurrence gives it |
| BestPaths.TracedIsBest | sicada-decode/src/trellis.rs:401-411 | Following the kept codes back from a cell of finite cost gives a path to it of exactly that cost |
| BestPaths.BeyondReach | sicada-decode/src/trellis.rs:390-392 | A cell above what any path has reached has infinite cost |
| BestPaths.ReadIsBest | sicada-decode/src/trellis.rs:380 | Reading the padded row at `reach + i - advance`, in the band or below position 0, reads the best cost of the cell the transition comes from |
| BestPaths.FillCell | sicada-decode/src/trellis.rs:371-384 | The loop over a cell's transitions computes its best cost and the least code attaining it |
| BestPaths.FillRow | sicada-decode/src/trellis.rs:366-394 | One frame's loop leaves the next row holding the best costs of the band and infinity elsewhere, and packs exactly the chosen codes into that frame's row of the traceback |
| BestPaths.ReadBack | sicada-decode/src/trellis.rs:401-411 | The backward walk over the packed traceback yields the path of the recurrence |
| BestPaths.TracedIsAnswer | sicada-decode/src/trellis.rs:401-417 | A path traced through the kept codes is complete, costs what is reported, is least among all complete paths, and wherever it lands every path arriving by a lesser code costs strictly more |
| BestPaths.BestPath | sicada-decode/src/trellis.rs:344-418 | `None` exactly when no complete path exists; otherwise a complete path of the reported cost, least of all, with the tie-break of the transition order; the two errors exactly when the degree or the traceback size is out of range |
| BestPaths.Solve | sicada-decode/src/trellis.rs:358-417 | The two swapped, never cleared rows and the packed traceback give the same answer as the recurrence |
| PathMasses.EnumerationIsExact | sicada-decode/src/trellis.rs:437-482 | The enumeration the totals are stated over lists every path to a cell once and nothing else |
| PathMasses.MassIsPushed | sicada-decode/src/trellis.rs:465-477 | Summing the weights of all paths to a cell is one step of the forward recurrence |
| PathMasses.ViaTaken | sicada-decode/src/trellis.rs:521-533 | The mass of the paths whose last transition is a given one is the mass before it times that transition's weight |
| Reversals.DeriveStepsOutOf | sicada-decode/src/trellis.rs:238-266 | The reading derived from the forward one lists, for each code, exactly the transition that leaves the cell under it, or none |
| Reversals.DerivedIsLawful | sicada-decode/src/trellis.rs:238-266 | The derived reading and the forward one are one graph |
| Reversals.PushIsPull | sicada-decode/src/trellis.rs:463-537 | Pushing a table one frame forward and pairing it with another equals pairing it with the other pulled one frame backward |
| LogSums.Pivot | sicada-decode/src/trellis.rs:702-707 | The fold's pivot is the largest term |
| LogSums.LogSum | sicada-decode/src/trellis.rs:701-738 | The fold returns the exact sum, and shares that times the pivot give each term back, though only one term may claim the share of one |
| ForwardBackward.EveryFrameHoldsTotal | sicada-decode/src/trellis.rs:484-537 | At every frame, forward mass times backward mass summed over positions is the total over all complete paths |
| ForwardBackward.BackwardAgrees | sicada-decode/src/trellis.rs:539-543 | The backward pass ends at the start with exactly the forward total |
| ForwardBackward.TransitionMass | sicada-decode/src/trellis.rs:484-486 | The mass of the complete paths that take a transition is forward mass, times its weight, times backward mass |
| ForwardBackward.NoMassBeyondReach | sicada-decode/src/trellis.rs:463-477 | Cells above the band carry no forward mass |
| ForwardBackward.NothingCompletesBelowBand | sicada-decode/src/trellis.rs:494-497 | Cells below the band complete nothing: their backward mass is zero |
| ForwardBackward.Forward | sicada-decode/src/trellis.rs:460-477 | The forward plane, padded and filled band by band, holds in every row the mass of all paths to each cell |
| Posteriors.TotalTellsCompletion | sicada-decode/src/trellis.rs:479-482 | The total is zero if and only if no complete path exists |
| Posteriors.SolveCell | sicada-decode/src/trellis.rs:499-534 | One cell of the backward pass stores the cell's backward mass and visits each of its transitions that carries mass once, with its share of the total |
| Posteriors.BackwardRow | sicada-decode/src/trellis.rs:491-536 | One frame of the backward pass, over two rows reused without clearing, visits every transition of that frame that carries mass, each once, rightly weighed |
| Posteriors.Posteriors | sicada-decode/src/trellis.rs:437-546 | `None` exactly when nothing completes; otherwise the total over all complete paths, every transition that lies on one visited exactly once with the share of paths that take it, and the shares of every frame adding up to one |
| Viterbi.NearPassesThrough | sicada-decode/src/viterbi.rs:92-137 | A path that stays near passes through every earlier frame, near up to there |
| Frontiers.RelaxCost | sicada-decode/src/frontier.rs:66-83 | A token is replaced exactly when there is none or the new cost is strictly less |
| Frontiers.SelectNth | sicada-decode/src/frontier.rs:97-106 | The cost selected at a rank has no more than rank costs below it and more than rank at or below it |
| Frontiers.Prune | sicada-decode/src/frontier.rs:86-112 | What is left is exactly the tokens at or under the cutoff, which is at most beam from the best; when the cap cut, more than the cap are left and at most the cap are strictly under the cutoff; with no beam and a cap no frontier reaches, everything is |
| Beams.NearIsKept | sicada-decode/src/frontier.rs:86-112 | No cutoff falls under a cost that is within the beam of every path of the frame and has no more states than the cap reached for less |
| Beams.CutoffIsInside | sicada-decode/src/frontier.rs:86-112 | No cutoff lets in a cost that is beyond the beam of a path surely tried, or that more states than the cap are surely tried for less than |
| Beams.EverythingStaysNear | sicada-decode/src/frontier.rs:86-112 | With no beam and a cap no frontier reaches, no path is ever cut |
| Viterbi.LabelsStay | sicada-decode/src/viterbi.rs:48-51 | Pushing links never changes what an existing link reads back |
| Viterbi.TraceBack | sicada-decode/src/viterbi.rs:263-272 | Walking the links back and reversing yields the labels along the path, in order |
| Viterbi.Relax | sicada-decode/src/viterbi.rs:164-200 | A relaxation improves exactly when nothing at least as cheap is there, and links the label unless it is epsilon |
| Viterbi.RelaxIsSound | sicada-decode/src/viterbi.rs:164-200 | Relaxing along an arc keeps every token the cost and labels of a real path, even if the token being extended has since been replaced |
| Viterbi.DrainOne | sicada-decode/src/viterbi.rs:229-258 | Draining one state of the queue keeps every state outside it settled |
| Viterbi.RelaxEpsilons | sicada-decode/src/viterbi.rs:209-260 | If the queue drains within the budget, every epsilon arc under the cutoff is settled; tokens stay real paths, none of which the beam drops, and only improve; the budget suffices wherever no more than 64 epsilon paths begin at any state |
| Viterbi.EmitFrame | sicada-decode/src/viterbi.rs:98-123 | One frame's emissions extend paths the beam has not dropped and match every emitting arc out of every token; an error names an arc with no column |
| Viterbi.NextDominates | sicada-decode/src/viterbi.rs:98-134 | If no path that stays near beat the last frame's tokens, emissions are matched, and what is near is kept and settled, then none beats this frame's |
| Viterbi.SettledIsNear | sicada-decode/src/viterbi.rs:128-134 | Settling under the beam's cutoff settles every epsilon arc that leads to a near cost, and cutting again to the cap leaves it so |
| Viterbi.PruneAndSettle | sicada-decode/src/viterbi.rs:128-134 | What is near stays and is settled; nothing stays that the beam drops; more than the cap stay only in ties |
| Viterbi.NothingAccepts | sicada-decode/src/viterbi.rs:125-127 | A frame into which nothing can be emitted ends every path that stays near: none of them accepts |
| Viterbi.Finish | sicada-decode/src/viterbi.rs:139-154 | The best finished token is a real accepting path the beam drops nowhere, and no accepting path that stays near costs less |
| Viterbi.ViterbiDecode | sicada-decode/src/viterbi.rs:67-155 | Under any beam and cap: an answer is the labels and cost of a real accepting path that the beam drops nowhere; if some accepting path stays within the beam of every path, and within the cap, on every frame, there is an answer and it costs no more; with everything kept it is the least, and no answer means there is none; a label error names an arc that matches no column; the budget rejects no graph of few epsilon paths |
| Viterbi.BestNearIsBest | sicada-decode/src/viterbi.rs:67-155 | With everything kept, best among the paths that stay near is best of all |
| Viterbi.DrainedWeight | sicada-decode/src/viterbi.rs:228-240 | Draining a state costs one step of the budget, and what it pushes begins at least one epsilon path fewer |
| Viterbi.EpsilonFreeIsFew | sicada-decode/src/viterbi.rs:209-227 | A graph without epsilon arcs has few epsilon paths |
| Lattices.Allocate | sicada-decode/src/lattice.rs:246-250 | Every state of the frontier gets one new lattice state, named by its frame and graph state, and nothing else changes |
| Lattices.SettleEpsilons | sicada-decode/src/lattice.rs:256-295 | If the queue drains within the budget, every epsilon arc under the cutoff is settled and the frontier only improves; it does wherever no more than 64 epsilon paths begin at any state |
| Lattices.SettleAndPrune | sicada-decode/src/lattice.rs:300-318 | What is near stays and is settled; nothing stays that the beam drops; more than the cap stay only in ties |
| Lattices.EmitPending | sicada-decode/src/lattice.rs:144-176 | Every emitting arc out of every token is kept pending exactly once, with its two costs apart, whatever the relaxation decided |
| Lattices.LinkPending | sicada-decode/src/lattice.rs:184-197 | Each pending arc whose target survived becomes one lattice arc, and no other arc is added |
| Lattices.EmitEpsilons | sicada-decode/src/lattice.rs:323-349 | Each epsilon arc between two surviving states of a frame becomes one lattice arc |
| Lattices.FrameIsFull | sicada-decode/src/lattice.rs:139-201 | After a frame no composition arc between two lattice states is missing |
| Lattices.GrowFrame | sicada-decode/src/lattice.rs:181-200 | One frame keeps the lattice faithful to the composition, full between its states, and each of its states reached by a path the beam drops nowhere |
| Lattices.LatticeDecode | sicada-decode/src/lattice.rs:105-217 | Whatever the beam and cap, the lattice is the part of the composition between the states that survived: distinct states, every arc between them exactly once, costs apart, the right start and finals; each state is reached by a path the beam drops nowhere, and every state a path reaches that stays near is there; no lattice means no such path accepts; with everything kept every reachable pair is a state, and no lattice means nothing accepts |
| Lattices.NearNamesEverything | sicada-decode/src/lattice.rs:105-217 | With everything kept, that is every state there is |
| LatticePaths.LatticePathIsWalk | sicada-decode/src/lattice.rs:105-217 | Every lattice path is a composition path with the same labels and the same graph and acoustic sums |
| LatticePaths.WalkIsLatticePath | sicada-decode/src/lattice.rs:105-217 | Under any beam every composition path that stays near is a lattice path |
| LatticePaths.WalksTellPathsApart | sicada-decode/src/lattice.rs:105-217 | No two lattice paths to a state stand for the same composition path |
| LatticePaths.FinalPathAccepts | sicada-decode/src/lattice.rs:203-217 | Under any beam a lattice path to a final state is an accepting path, at the sum of its graph, acoustic and final costs, with its words |
| LatticePaths.AcceptingIsFinalPath | sicada-decode/src/lattice.rs:203-217 | Under any beam every accepting path of the composition that stays near is in the lattice exactly once |
| Aligning.NewChain | sicada-decode/src/align.rs:79-86 | A reference every phone of which must be sounded, with the blank in column 0 |
| Aligning.WithSkipCosts | sicada-decode/src/align.rs:103-120 | Skip costs are taken if there is one for each phone and none is negative; otherwise the error names the count or the first negative one |
| Aligning.CheckColumns | sicada-decode/src/align.rs:228-248 | No error exactly when the blank and every phone name a column; otherwise the first that does not |
| Aligning.ChainIsLawful | sicada-decode/src/align.rs:609-676 | The chain obeys the solvers' contract, no code is ambiguous, and the transitions it spells out backwards are the ones it lists forwards |
| Aligning.FromPath | sicada-decode/src/align.rs:529-544 | A path reads back as the position each frame sounded; an error exactly when a code is not one of the four, naming the first |
| Aligning.FromOutputLabels | sicada-decode/src/align.rs:559-585 | Labels read back as positions or silence; an error exactly when one names no position, naming the first |
| Aligning.Spans | sicada-decode/src/align.rs:399-411 | Each position's span runs from the first frame that sounds it to the last, and is absent exactly when none does |
| Aligning.OrderedGroups | sicada-decode/src/align.rs:413-450 | Where positions sound in order, a group's span starts and ends at frames that sound it and covers every one |
| Aligning.GroupSpans | sicada-decode/src/align.rs:427-450 | Groups that add up get the span from the first frame of their first sounded position to the last frame of their last; others are an error |
| Aligning.Skipped | sicada-decode/src/align.rs:453-463 | Exactly the positions no frame sounds, in order |
| Aligning.Align | sicada-decode/src/align.rs:705-718 | The reading of a best path of the chain, or none exactly when no path completes; a column error exactly when the chain names one the matrix lacks; a size error exactly when the phones fit the frames and the traceback plane does not fit in memory |
| AlignmentCosts.PathCostSplits | sicada-decode/src/align.rs:636-648 | A chain path's cost is what its frames read plus what its skips cost |
| AlignmentCosts.PaidByPosition | sicada-decode/src/align.rs:636-648 | What a path pays for skips, added up frame by frame, is what it pays position by position: each position is entered once |
| AlignmentCosts.ExchangeSaves | sicada-decode/src/occupancy.rs:129-136 | Skip, wait, hold costs exactly the skip more than wait, wait, commit, which reaches the same cell having sounded the same phone |
| AlignmentCosts.NothingPaidForSounded | sicada-decode/src/occupancy.rs:129-136 | No best path pays anything for a phone it goes on to sound |
| AlignmentCosts.AlignedIsOrdered | sicada-decode/src/align.rs:413-420 | The frames of an alignment sound positions in order |
| AlignmentCosts.CostIsHeardPlusSkipped | sicada-decode/src/align.rs:387-392 | An alignment's cost is the sum of its acoustic costs plus the skip costs of exactly the positions it reports skipped, for any nonnegative skip costs |
| AlignmentCosts.NeverHeldIffNoSkipIsFree | sicada-decode/src/occupancy.rs:129-136 | No best path over any phones and scores sounds a phone it skipped, if and only if no skip costs exactly zero |
| AlignmentCosts.FreeSkipIsHeld | sicada-decode/src/align.rs:633-648 | A free skip is held in some best path: the concrete chain, scores and path |
| ChainGraphs.ToFst | sicada-decode/src/align.rs:274-339 | The FST is built exactly when the offset is at least one and every label fits, and has the four kinds of arc, none for a forbidden skip |
| ChainGraphs.ArcIsStep | sicada-decode/src/align.rs:313-334 | Each arc of the FST is the transition of its place: same column, same cost, same move, and a label that reads its sound back |
| ChainGraphs.StepIsArc | sicada-decode/src/align.rs:313-334 | Each transition that is there is an arc of the FST |
| ChainGraphs.AcceptingIsComplete | sicada-decode/src/align.rs:250-273 | An accepting path of the FST at finite cost is a complete path of the trellis, of the same cost, whose labels read back its alignment |
| ChainGraphs.CompleteIsAccepting | sicada-decode/src/align.rs:250-273 | Every complete path of the trellis is an accepting path of the FST at the same cost, and the two mappings are inverse |
| ChainGraphs.DecodingIsAligning | sicada-decode/src/align.rs:265-268 | Exhaustive decoding of the FST and exact alignment agree: one has an answer of finite cost exactly when the other does, at the same cost, and the labels read back a path that cheap |
| ChainGraphs.NothingToReport | sicada-decode/src/align.rs:313-334 | Decoding the chain's FST reports no error: it has no epsilon arc and every label names a column |
| ChainGraphs.AlignByDecoding | sicada-decode/src/align.rs:264-268 | Building the FST, decoding it exhaustively and reading the labels back is aligning: an alignment read off a cheapest complete path, or none exactly when there is none |
| HybridIndexMaps.HybridIndexMap.Insert | sicada/src/cache.rs:169-178 | Exactly the given ID is mapped anew, in either tier |
| HybridIndexMaps.HybridIndexMap.Remove | sicada/src/cache.rs:181-189 | Exactly the given ID is forgotten |
| LinkedSlots.UnlinkKeepsList | sicada/src/cache.rs:238-250 | Unlinking a node leaves a well-formed list of exactly the other slots, in order, their contents untouched |
| LinkedSlots.PushKeepsList | sicada/src/cache.rs:262-275 | Pushing a new slot on the front leaves a well-formed list with it first |
| LinkedSlots.TotalWithout | sicada/src/cache.rs:235-236 | Taking a slot out of the list takes its size out of the total |
| LinkedSlots.UnlinkRotates | sicada/src/cache.rs:313-317 | Unlinking where the hand stands and stepping back continues the same round, one slot shorter |
| CacheStores.CacheStore.RemoveNode | sicada/src/cache.rs:234-259 | Keeps the list, the index, the byte count and the hand right; exactly that slot goes |
| CacheStores.CacheStore.PushHead | sicada/src/cache.rs:262-275 | Keeps them right; exactly the new slot is added, in front |
| CacheStores.CacheStore.SweepUnvisited | sicada/src/cache.rs:290-321 | The first sweep frees nothing held and nothing visited, clears only visited marks, never touches a freed slot, and meets the target or frees everything unvisited and not held |
| CacheStores.CacheStore.SweepAll | sicada/src/cache.rs:323-347 | The second sweep frees nothing held, never touches a freed slot, and meets the target or leaves only what is held |
| CacheStores.CacheStore.Gc | sicada/src/cache.rs:281-353 | Ends with the size at most the limit; brings it to the share of the limit, rounded down, unless all that is left is held, and always when nothing is pinned, protected or being computed; frees nothing once it is there; frees nothing protected, pinned or expanding, and something visited only after everything unvisited it could; the limit grows only if what is left does not fit |
| CacheStores.CacheStore.SweepTwice | sicada/src/cache.rs:290-347 | Two sweeps stop as soon as the target is met: something freed, put back, would exceed it |
| CacheStores.CacheStore.Target | sicada/src/cache.rs:286 | The target is the limit times the fraction, rounded down |
| CacheStores.CacheStore.AllocateSlot | sicada/src/cache.rs:356-383 | The state's slot, or a new one after collecting; what is held stays, and no other state is changed but for its visited mark |
| CacheStores.SweepsCompose | sicada/src/cache.rs:281-347 | Two sweeps together keep what each keeps |
| Caches.CacheImpl.FinalWeight | sicada/src/cache.rs:484-514 | The expander's own answer, though the expander consults the cache while expanding and collections run; what is being expanded or pinned survives |
| Caches.CacheImpl.EnsureArcs | sicada/src/cache.rs:518-578 | The slot returned is live and holds the state's arcs and epsilon counts, after any nested queries and the collection that protects it |
| Caches.CacheImpl.ArcsSlice | sicada/src/cache.rs:585-593 | The arcs are the expander's, and the slot they came from is pinned until the handle is dropped |
| Caches.CacheImpl.HasArcs | sicada/src/cache.rs:610-618 | True exactly when the state's arcs are remembered |
| Caches.CacheImpl.Run | sicada/src/cache.rs:484-657 | Every sequence of queries, handles kept and dropped, and clearings is answered as the expander alone would answer it |
| Caches.RoundTrip | sicada/src/cache.rs:387-411 | Marking a state as expanding, answering nested queries and unmarking it leaves everything else held as it was |
| Expectations.CollectedIsExpected | sicada-decode/src/trellis.rs:484-537 | Adding up the shares of the transitions a caller counts comes to the frames counted over all complete paths, each path at its probability |
| Expectations.HitsAreTally | sicada-decode/src/trellis.rs:484-486 | A path is visited exactly once a frame |
| Expectations.CountedOnce | sicada-decode/src/occupancy.rs:122-124 | What no path counts twice is expected as often as it is probable |
| Occupancies.ColumnIsScored | sicada-decode/src/align.rs:678-686 | The column a transition reads is the one it is scored from: it costs that column's score, and what it pays for a skip |
| Occupancies.CellsApart | sicada-decode/src/occupancy.rs:183 | No two cells of the plane of posteriors share a place |
| Occupancies.Accumulate | sicada-decode/src/occupancy.rs:175-189 | Visiting transition by transition, each column, duration and skip accumulates exactly the shares of the transitions that count for it |
| Occupancies.MeasureOccupancy | sicada-decode/src/occupancy.rs:155-202 | Each posterior is the probability that the frame reads the column, each duration the expected number of frames that sound the position, each skip the probability of skipping into it; every frame is shared out in full; none exactly when nothing completes; the three errors exactly when they should be |
| Occupancies.CollectedBalances | sicada-decode/src/occupancy.rs:462-471 | The expected durations and the blank column's posteriors share out the frames between them; where a phone has the blank's column, its duration is what is counted twice |
| Occupancies.LabelPrior | sicada-decode/src/occupancy.rs:91-109 | The average of each column's posteriors, which add up to one |
| Occupancies.AtLeastBest | sicada-decode/src/occupancy.rs:80-89 | The probability of the reference is at least that of its best alignment |
| Occupancies.SkipBoundsSilence | sicada-decode/src/occupancy.rs:122-142 | A skip's posterior is the probability of giving the phone no frames, and more by exactly that of skipping into it and holding it all the same |
| Occupancies.ForbiddenIsNeverSkipped | sicada-decode/src/occupancy.rs:125-127 | It is zero where the chain does not allow the skip |
| Matchers.ScanOfRun | sicada/src/matcher.rs:257-277 | The arcs between the two partition points of a sorted state are a scan for the label |
| Matchers.PartitionPoint | sicada/src/matcher.rs:264-270 | Below the place every label is under the limit, from it on none is |
| Matchers.ScanAnswers | sicada/src/matcher.rs:257-277 | A scan finds exactly the arcs that have the label on the side matched |
| Matchers.MatchesAnswer | sicada/src/matcher.rs:191-208 | For epsilon the loop first, with no label on the side matched and epsilon on the other; every other match has the label asked for |
| Matchers.RewrittenStandIn | sicada/src/matcher.rs:1425-1449 | A rewritten arc has the label asked for on the side matched, the same target and weight, and on the other side a new label only if both are rewritten and it had the standing one |
| Matchers.SortedMatcher.Find | sicada/src/matcher.rs:191-208 | What it goes on to enumerate is the epsilon loop, for epsilon, and a linear scan for the label; found exactly when that is not empty |
| Matchers.SortedMatcher.LowerBound | sicada/src/matcher.rs:279-289 | What it goes on to enumerate is every arc from the label on |
| Matchers.SortedMatcher.Done | sicada/src/matcher.rs:211-227 | True exactly when nothing is left to enumerate |
| Matchers.SortedMatcher.Next | sicada/src/matcher.rs:239-245 | Passes the first of what is left and nothing else |
| Matchers.GroupByLabel | sicada/src/matcher.rs:391-406 | The table of a state holds, for each label that is there and no other, its arcs in order |
| Matchers.HashMatcher.SetState | sicada/src/matcher.rs:378-408 | The state's table is there, and those of the states seen before stay right |
| Matchers.HashMatcher.Find | sicada/src/matcher.rs:410-431 | The same enumeration as of the sorted matcher, on sorted arcs or not |
| Matchers.HashMatcher.Next | sicada/src/matcher.rs:455-461 | Passes the first of what is left and nothing else |
| ImplicitMatchers.RhoMatcher.Find | sicada/src/matcher.rs:818-837 | The state's own matches; rewritten rest arcs only for a real label with none; nothing, and an error, for the rest label itself |
| ImplicitMatchers.RestMatchesAnswer | sicada/src/matcher.rs:818-857 | Every arc found for a real label has it; where the state has none of its own, each is a stand-in for a rest arc |
| ImplicitMatchers.SigmaMatcher.Find | sicada/src/matcher.rs:1000-1019 | The state's own matches and after them its rewritten any-arcs, for a real label; nothing, and an error, for the any label itself |
| ImplicitMatchers.SigmaMatcher.Next | sicada/src/matcher.rs:1040-1053 | Passes one match, going on from the own arcs to the any-arcs |
| ImplicitMatchers.AnyMatchesAnswer | sicada/src/matcher.rs:1000-1053 | Every arc found for a real label has it; after the state's own, each is a stand-in for an any-arc |
| ImplicitMatchers.PhiMatcher.Find | sicada/src/matcher.rs:554-584 | By kind of label: nothing and an error for the failure label, what epsilon means where it is the failure label, the own arcs for what fails over nowhere, and otherwise the failure chain |
| ImplicitMatchers.PhiMatcher.FollowChain | sicada/src/matcher.rs:586-613 | On acyclic failures, the matches of the first state along the chain that has any, or the looping failure arc rewritten, at the product of the weights failed over; an error exactly if a state passed has several failure arcs |
| ImplicitMatchers.FirstMatchesMean | sicada/src/matcher.rs:586-662 | What the chain comes to is some list of states failed over one after the other, and at its end the state's own arcs for the label, or stand-ins for its looping failure arcs, at the weight of the arcs failed over times their own |
| ImplicitMatchers.PhiMatcher.Value | sicada/src/matcher.rs:620-661 | The first of what is left, its weight multiplied and its labels rewritten |
| ImplicitMatchers.PhiMatcher.Next | sicada/src/matcher.rs:664-666 | Passes the first of what is left and nothing else |
| ImplicitMatchers.MultiEpsMatcher.AddMultiEpsLabel | sicada/src/matcher.rs:1266-1277 | The label joins the sorted labels once, unless it is epsilon, which is refused |
| ImplicitMatchers.MultiEpsMatcher.RemoveMultiEpsLabel | sicada/src/matcher.rs:1280-1284 | Exactly that label goes |
| ImplicitMatchers.MultiEpsMatcher.SeekMultiEps | sicada/src/matcher.rs:1309-1319 | Goes on to the next label that has arcs, losing none |
| ImplicitMatchers.MultiEpsMatcher.Find | sicada/src/matcher.rs:1343-1366 | Asked for no label it lists label after label and then the epsilon arcs; asked for one of the labels it stays put; otherwise it is the inner matcher |
| ImplicitMatchers.MultiEpsMatcher.Next | sicada/src/matcher.rs:1389-1413 | Passes one match, going on from label to label and then to the epsilon arcs |
| ImplicitMatchers.ListsOnce | sicada/src/matcher.rs:1348-1353 | Listing gives every arc that consumes nothing exactly once, if and only if no label is not one of the labels or the state has no arcs under it or epsilon |
| OrderQueues.StateOrderQueue.Enqueue | sicada/src/queue.rs:702-712 | Adds the state to the set |
| OrderQueues.StateOrderQueue.Dequeue | sicada/src/queue.rs:714-722 | Takes out the least ID, or none exactly when the set is empty |
| OrderQueues.TopOrderQueue.Enqueue | sicada/src/queue.rs:633-643 | Adds the state, in place of any other that takes its position |
| OrderQueues.TopOrderQueue.Dequeue | sicada/src/queue.rs:645-652 | Takes out a state of the least position, or none exactly when nothing is queued |
| OrderQueues.NothingDisplacedIffInjective | sicada/src/queue.rs:633-643 | Queueing never loses a state, whatever is queued, if and only if no two states share a position |
| SccQueues.InnerDequeue | sicada/src/queue.rs:778-785 | Takes out one state of the component, first, last or any by discipline, or none exactly when it is empty |
| SccQueues.SccQueue.Enqueue | sicada/src/queue.rs:877-888 | Adds the state; with slots that suffice no other state is touched |
| SccQueues.SccQueue.Dequeue | sicada/src/queue.rs:890-893 | Takes out a state of the least component that holds one, or none exactly when nothing is queued; every other count stays |
| SccQueues.SccQueueTypes | sicada/src/queue.rs:942-997 | Each component is trivial, FIFO, LIFO or lightest-first exactly according to the arcs that stay inside it, in whatever order they are met |
| SccQueues.OneArcMore | sicada/src/queue.rs:963-985 | Meeting one more arc moves a component's discipline to the one its arcs so far call for |
| SccQueues.OneSlotIsEnough | sicada/src/queue.rs:933-941 | With the components' true numbering, a component called trivial has one state |
| SccQueues.ChosenSlotsSuffice | sicada/src/queue.rs:748-757 | So the disciplines chosen never lose a queued state to a one-slot queue |
| ShortestDistances.ShortestDistance | sicada/src/queue.rs:1820-1867 | Driven by a queue that gives up any of its states in any order, the loop ends and finds every true shortest distance |
| ShortestDistances.PassOn | sicada/src/queue.rs:1843-1863 | Passing a state's residual along an arc keeps residual equal to distance for all that waits, and everything passed on for all that does not; distances only shrink |
| ShortestDistances.DistanceIsUnique | sicada/src/queue.rs:1932-1991 | There is one such distance, so the discipline never changes the answer |
| ShortestDistances.NothingShorter | sicada/src/queue.rs:1836-1866 | With nothing waiting, no path is shorter than the distance found |
| Heaps.Heap.Insert | sicada-bench/cpp/openfst_shim.cc:64-74 | The value gets a key not in use; every other key keeps its value; recycled slots included |
| Heaps.Heap.Update | sicada-bench/cpp/openfst_shim.cc:80-89 | Exactly that key's value changes |
| Heaps.Heap.Pop | sicada-bench/cpp/openfst_shim.cc:92-99 | A least value is returned and exactly its key goes |
| Heaps.Heap.Top | sicada-bench/cpp/openfst_shim.cc:103-106 | A value no other precedes |
| Heaps.Heap.Get | sicada-bench/cpp/openfst_shim.cc:109-112 | The value under a key |
| Heaps.TopIsLeast | sicada-bench/cpp/openfst_shim.cc:103-106 | The first of a heap precedes or ties with every value in it |
| Heaps.SiftUpStep | sicada-bench/cpp/openfst_shim.cc:180-187 | A swap with the parent moves the one place out of order up |
| Heaps.SiftDownStep | sicada-bench/cpp/openfst_shim.cc:161-177 | A swap with the preceding child moves the one place out of order down |
| Heaps.SwapKeeps | sicada-bench/cpp/openfst_shim.cc:153-158 | Swapping two nodes keeps positions and keys inverse, recycled slots included, and every key its value |
| Properties.KeepAfterAddArcIsSound | sicada/src/properties.rs:659-671 | The bits kept after an append stay true under exactly the facts an append changes, top-sortedness implying acyclicity |
| Properties.UnmarkArcIsSound | sicada/src/properties.rs:281-295 | Clearing what the old arc justified leaves only what the other arcs may still justify |
| Properties.MarkArcIsSound | sicada/src/properties.rs:297-316 | Marking what the new arc forces is right |
| Properties.AddArcTellsAcceptor | sicada/src/properties.rs:624-627 | After an append the claim that labels agree stays exactly if the new arc does not refute it, and the opposite claim is there exactly if it was or its labels differ |
| Properties.AddArcTellsIEpsilons | sicada/src/properties.rs:628-635 | After an append the claim that there are no input epsilons stays exactly if the new arc does not refute it, and the opposite claim is there exactly if it was or it has one |
| Properties.AddArcTellsOEpsilons | sicada/src/properties.rs:636-639 | After an append the claim that there are no output epsilons stays exactly if the new arc does not refute it, and the opposite claim is there exactly if it was or it has one |
| Properties.AddArcTellsEpsilons | sicada/src/properties.rs:631-634 | After an append the claim that no arc is epsilon on both sides stays exactly if the new arc does not refute it, and the opposite claim is there exactly if it was or it is |
| Properties.AddArcTellsWeights | sicada/src/properties.rs:650-653 | After an append the claim that nothing is weighted stays exactly if the new arc does not refute it, and the opposite claim is there exactly if it was or it is |
| Properties.AddArcTellsIOrder | sicada/src/properties.rs:640-645 | After an append the claim that input labels are sorted stays exactly if the new arc does not refute it, and the opposite claim is there exactly if it was or its label is under the one before |
| Properties.AddArcTellsOOrder | sicada/src/properties.rs:640-649 | After an append the claim that output labels are sorted stays exactly if the new arc does not refute it, and the opposite claim is there exactly if it was or its label is under the one before |
| Properties.AddArcTellsTopOrder | sicada/src/properties.rs:654-657 | After an append the claim that states are sorted stays exactly if the new arc does not refute it, and the opposite claim is there exactly if it was or it does not lead to a later one |
| Properties.SetArcTellsAcceptor | sicada/src/properties.rs:281-283 | After a replacement the claim that labels agree stays exactly if the new arc does not refute it, and the opposite claim is there exactly if its labels differ, or it was there and the old arc was not why |
| Properties.SetArcTellsIEpsilons | sicada/src/properties.rs:284-289 | After a replacement the claim that there are no input epsilons stays exactly if the new arc does not refute it, and the opposite claim is there exactly if it has one, or it was there and the old arc was not why |
| Properties.SetArcTellsOEpsilons | sicada/src/properties.rs:290-292 | After a replacement the claim that there are no output epsilons stays exactly if the new arc does not refute it, and the opposite claim is there exactly if it has one, or it was there and the old arc was not why |
| Properties.SetArcTellsEpsilons | sicada/src/properties.rs:301-308 | After a replacement the claim that no arc is epsilon on both sides stays exactly if the new arc does not refute it, and the opposite claim is there exactly if it is, or it was there and the old arc was not why |
| Properties.SetArcTellsWeights | sicada/src/properties.rs:293-295 | After a replacement the claim that nothing is weighted stays exactly if the new arc does not refute it, and the opposite claim is there exactly if it is, or it was there and the old arc was not why |
| Properties.AddArcKeeps | sicada/src/properties.rs:659-667 | What an arc more cannot undo stays claimed |
| FstFacts.AddArcIsSound | sicada/src/properties.rs:614-673 | If every bit is true of an FST, every bit `add_arc_properties` returns is true of it with the arc appended |
| FstFacts.SetArcIsSound | sicada/src/properties.rs:277-330 | If every bit is true, every bit `set_arc_properties` returns is true after the arc is replaced |
| FstFacts.StartIsSet | sicada/src/properties.rs:583-589 | What setting the start can change: only reachability from it, and cycles through it, which need a cycle |
| FstFacts.FinalIsSet | sicada/src/properties.rs:592-606 | What setting a final weight can change |
| FstFacts.StateIsAdded | sicada/src/properties.rs:609-611 | What adding a state can change: it is reachable from nowhere and reaches nothing |
| FstFacts.ArcsAreRemoved | sicada/src/properties.rs:687-689 | What deleting arcs can change: nothing that only gaining an arc could break |
| Properties.SetStartKeepsLabels | sicada/src/properties.rs:583-589 | Setting the start gives up no claim about labels |
| Properties.SetStartKeepsOrder | sicada/src/properties.rs:583-589 | Setting the start gives up no claim about order and determinism |
| Properties.SetStartKeepsCycles | sicada/src/properties.rs:583-589 | Setting the start gives up no claim about cycles anywhere |
| Properties.SetFinalKeepsLabels | sicada/src/properties.rs:592-606 | Setting a final weight gives up no claim about labels |
| Properties.SetFinalKeepsOrder | sicada/src/properties.rs:592-606 | Setting a final weight gives up no claim about order and determinism |
| Properties.SetFinalKeepsCycles | sicada/src/properties.rs:592-606 | Setting a final weight gives up no claim about cycles |
| Properties.SetFinalTells | sicada/src/properties.rs:592-606 | It claims weights exactly if the new weight shows them, or they were claimed and the old weight was not why |
| Properties.AddStateKeeps | sicada/src/properties.rs:609-611 | Adding a state gives up only that all states are reached and finish |
| Properties.DeletionsKeep | sicada/src/properties.rs:676-689 | Deleting gives up nothing that only having more could break |
| Properties.ErrorStays | sicada/src/properties.rs:583-689 | No rule forgets an error |
| Properties.InvertSwaps | sicada/src/properties.rs:883-949 | Inverting swaps exactly what is said of input and output epsilons |
| Properties.ProjectCopies | sicada/src/properties.rs:951-1034 | Projecting says of both sides exactly what was said of the epsilons of the side kept |
| FstFacts.SortedIsAcyclic | sicada/src/properties.rs:669-671 | A top-sorted FST has no cycle |
| FstFacts.InvertedTruth | sicada/src/properties.rs:883-949 | Inverting an FST swaps the input and output facts and keeps every other |
| FstFacts.ProjectedTruth | sicada/src/properties.rs:951-1034 | Projecting an FST copies one side's facts over the other and keeps every fact that labels do not decide |
| StateDeletion.StatesAreRemoved | sicada/src/properties.rs:338-353 | Deleting states and renumbering the rest keeps acceptors, determinism, sortedness, acyclicity and the absence of epsilons and weights |
| StateDeletion.ReachedBefore | sicada/src/fsts/vector_fst.rs:514-589 | What is reachable after deletion was reachable before |
| PropertyCaches.DiscoverStaysConsistent | sicada/src/fst.rs:264-278 | A pair-closed mask and consistent bits never leave both halves of a property |
| PropertyCaches.ConsistentIffPairClosed | sicada/src/fst.rs:264-278 | Taking in a scan never leaves both halves, whatever was held and found, if and only if the mask splits no pair |
| PropertyCaches.DiscoverIsSound | sicada/src/fst.rs:272-278 | A correct scan keeps every claim true |
| PropertyCaches.PropertyCache.Discover | sicada/src/fst.rs:272-278 | Only bits not settled before are taken |
| PropertyCaches.PropertyCache.MarkError | sicada/src/fst.rs:257-260 | Sets the error bit and no other |
| PropertyCaches.HeldStays | sicada/src/fst.rs:272-278 | Taking in a scan never clears a bit |
| PropertyCaches.TakesExactlyTheUnsettled | sicada/src/fst.rs:272-278 | Of the properties asked for, exactly those are taken of which neither half was held |
| VectorFsts.VectorFst.SetStart | sicada/src/fsts/vector_fst.rs:435-441 | The start is set and every bit stays true |
| VectorFsts.VectorFst.SetFinal | sicada/src/fsts/vector_fst.rs:443-449 | The final weight is set, if the state is there, and every bit stays true |
| VectorFsts.VectorFst.AddState | sicada/src/fsts/vector_fst.rs:457-470 | A state is added and every bit stays true |
| VectorFsts.VectorFst.AddArc | sicada/src/fsts/vector_fst.rs:478-483 | An arc is appended, if the state is there, and every bit stays true |
| VectorFsts.VectorFst.MutateArcs | sicada/src/fsts/vector_fst.rs:617-631 | Every arc of a state is rewritten and every bit stays true |
| VectorFsts.VectorFst.DeleteArcsN | sicada/src/fsts/vector_fst.rs:493-498 | The last arcs of a state go and every bit stays true |
| VectorFsts.VectorFst.DeleteArcs | sicada/src/fsts/vector_fst.rs:500-505 | A state's arcs all go and every bit stays true |
| VectorFsts.VectorFst.DeleteAllStates | sicada/src/fsts/vector_fst.rs:507-512 | Everything goes and every bit claimed is true of nothing |
| VectorFsts.VectorFst.DeleteStates | sicada/src/fsts/vector_fst.rs:514-589 | Exactly the states named go, the rest keep their order, weights and arcs among themselves, and every bit stays true |
| VectorFsts.InvertIsSound | sicada/src/properties.rs:883-949 | Every bit `invert_properties` returns is true of the inverted FST |
| VectorFsts.ProjectIsSound | sicada/src/properties.rs:951-1034 | Every bit `project_properties` returns is true of the projected FST |
| LatticeWeights.CompareIsAnOrder | sicada-decode/src/lattice_weight.rs:69-83 | The comparison is a total order on members |
| LatticeWeights.CompareIsByTotal | sicada-decode/src/lattice_weight.rs:69-83 | It decides by the sum of the two costs, and on a tie by the graph cost |
| LatticeWeights.PlusIsCheapest | sicada-decode/src/lattice_weight.rs:196-205 | What ⊕ picks costs no more in all than either; of two that cost the same, no more of it is graph cost |
| LatticeWeights.PlusLaws | sicada-decode/src/lattice_weight.rs:196-205 | ⊕ picks the better of two and is commutative, associative and idempotent with zero as identity |
| LatticeWeights.TimesLaws | sicada-decode/src/lattice_weight.rs:208-213 | ⊗ adds each cost to its like, and is commutative and associative with one as identity and zero absorbing |
| LatticeWeights.Distributes | sicada-decode/src/lattice_weight.rs:196-213 | ⊗ distributes over ⊕ |
| LatticeWeights.DivideUndoes | sicada-decode/src/lattice_weight.rs:265-280 | Dividing undoes ⊗ and multiplies back |
| LatticeWeights.Members | sicada-decode/src/lattice_weight.rs:229-238 | The members are the pairs of finite costs and the one zero |
| LatticeWeights.DivideByZero | sicada-decode/src/lattice_weight.rs:272-274 | Nothing divides by zero |
| CompactLatticeWeights.CompareIsAnOrder | sicada-decode/src/compact_lattice_weight.rs:96-110 | The order by cost, then length, then labels is total on members |
| CompactLatticeWeights.PlusLaws | sicada-decode/src/compact_lattice_weight.rs:241-250 | ⊕ is commutative, associative, idempotent and selective, with zero as identity |
| CompactLatticeWeights.PlusIsBest | sicada-decode/src/compact_lattice_weight.rs:241-250 | What ⊕ picks has the cost the lattice weights' ⊕ picks; of equal costs the alignment is no longer than the other, and of equal lengths the one that is smaller where they first differ |
| CompactLatticeWeights.TimesLaws | sicada-decode/src/compact_lattice_weight.rs:253-265 | ⊗ is associative, with one and zero right on both sides |
| CompactLatticeWeights.CompareTimes | sicada-decode/src/compact_lattice_weight.rs:96-110 | A nonzero factor on either side keeps the order, ties included |
| CompactLatticeWeights.Distributes | sicada-decode/src/compact_lattice_weight.rs:241-265 | ⊗ distributes over ⊕ from both sides |
| CompactLatticeWeights.DivideAnswers | sicada-decode/src/compact_lattice_weight.rs:337-374 | There is a quotient exactly when the divisor is not zero and its alignment ends the dividend's on that side, and it multiplies back |
| CompactLatticeWeights.DivideUndoes | sicada-decode/src/compact_lattice_weight.rs:337-374 | Dividing undoes ⊗ from the side it was done on |
| CompactLatticeWeights.ReverseLaws | sicada-decode/src/compact_lattice_weight.rs:268-275 | Reversing undoes itself and turns a product round |
| CompactLatticeWeights.ReverseDistributesUnlessFlipped | sicada-decode/src/compact_lattice_weight.rs:268-275 | Reversing a choice is choosing between reversals, if and only if the tie-break reads the same backwards |
| CompactLatticeWeights.SomethingFlips | sicada-decode/src/compact_lattice_weight.rs:268-275 | Two weights for which it does not |
| CompactLatticeWeights.DivisorLaws | sicada-decode/src/compact.rs:90-115 | The common divisor is commutative and associative with zero as identity |
| CompactLatticeWeights.DivisorIsGreatest | sicada-decode/src/compact.rs:90-115 | Its cost is the better one, and its alignment begins both and holds every alignment that does |
| CompactLatticeWeights.DivisorDivides | sicada-decode/src/compact.rs:90-115 | It left-divides each nonzero argument back exactly |
| CompactLatticeWeights.FoldIgnoresOrder | sicada-decode/src/compact.rs:90-115 | Folding it over a subset does not depend on the order |
| CompactLatticeWeights.FoldDividesAll | sicada-decode/src/compact.rs:82-115 | What a subset folds to left-divides every nonzero weight in it |
| CompactLattices.ToCompact | sicada-decode/src/compact.rs:126-167 | State by state and arc by arc: words on both sides, the input label moved into the weight unless it is epsilon, final weights kept if they are members other than zero |
| CompactLattices.PathsAreKept | sicada-decode/src/compact.rs:149-164 | The same paths by the same arcs saying the same words, which they now also read, each with its lattice weight and its input labels, in order, as its weight |
| CompactLattices.AcceptingIsKept | sicada-decode/src/compact.rs:145-148 | Finishing a path adds its final costs and no frames |
| CtcTopologies.Collapse | sicada-decode/src/ctc.rs:121-131 | One pass with the previous column is merging runs and then deleting blanks |
| CtcTopologies.CtcTopo | sicada-decode/src/ctc.rs:40-113 | The three errors exactly when they should be, or the topology |
| CtcTopologies.ReadingIsWalk | sicada-decode/src/ctc.rs:66-109 | Every column sequence has a path that reads it, costs what it scores, and says the offset of what it collapses to |
| CtcTopologies.WalkIsReading | sicada-decode/src/ctc.rs:66-109 | And only one: every path is the reading of its columns |
| CtcTopologies.DecodingCollapses | sicada-decode/src/ctc.rs:9-14 | Decoding the topology exhaustively is choosing a cheapest column sequence and collapsing it |

## Left out

- Floating-point rounding, NaN scores and the cutoff below which a posterior is not
  visited: costs are exact, and every transition that carries mass is visited.
- Posteriors.Posteriors: works on path weights under any weighing that turns sums of
  costs into products, rather than on their logarithms.
- Integer widths: positions, links, lattice states and byte counts are unbounded, so
  truncation and saturation are not modelled; the packed codes are eight bits wide as in
  the source.
- Frontiers.SelectNth: finds the cost at a rank by insertion rather than by partial
  selection; only what the rank means is used.
- Hash-map iteration order is arbitrary in the model, as are the vacant slot a slab picks,
  the top of a lightest-first queue whose distances have since changed, and the state a
  queue gives up in `ShortestDistances.ShortestDistance`.
- Viterbi.RelaxEpsilons: says that the step budget suffices where no more than 64 epsilon
  paths begin at any state; where more do, the source may give up or not, depending on the
  order in which its hash map yields states, and the model allows both.
- Lattices.LatticeDecode: stops before trimming and before the lattice beam, whose
  algorithms are generic ones of the library.
- CacheStores.CacheStore.Gc: memory sizes are those of the estimate, per state and per
  arc; the flags' panics on recursive expansion are excluded by ranking the questions an
  expander may ask.
- The cache's known-state counters, its start state, and iterators over cached arcs, which
  only read what is modelled.
- SccQueues.SccQueueTypes: takes the component numbering as given; the search that finds
  components is not part of this model, nor are the automatic choice of a queue, A* and
  pruning queues.
- Aligning.Align: against a matrix whose scores are any costs; reading scores, symbol
  tables and label types are represented only by the largest label that fits.
- Heaps.Heap.Pop: does not guard against an empty heap, as the source does not.
- VectorFsts.VectorFst.Discover: takes the scan's bits as correct; the scan itself is not
  modelled, nor is raw mutable access to arcs, which keeps no bits.
- Property rules of operations whose code is elsewhere (closure, concatenation, union,
  composition, replacement, determinization).
- Occupancies.MeasureOccupancy: gives the probability of the reference rather than its
  negative logarithm, and keeps no single-precision copies.
- Matchers.SortedMatcher.Find: asks that the state's arcs be sorted, as the source relies on
  without checking. The wrappers are modelled over this matcher only; whether both labels are
  rewritten is decided by the caller, match priorities, clones, rejected match types and
  the wrapper that hides implicit matches are not modelled.
- ImplicitMatchers.PhiMatcher.FollowChain: asks for a rank that falls along every failure
  arc followed; on a cycle of failures the source does not return.
- CompactLattices.ToCompact: stops before the removal of epsilons and determinization,
  which are generic algorithms of the library.
- N-best, files, headers and symbol tables.
