# HP lattice folding by replica exchange Monte Carlo, in Dafny

This project models the folding engine of REMC_Prog3. A protein sequence is
reduced to hydrophobic (H) and polar (P) residues and folded as a
self-avoiding chain on a square lattice. The energy of a fold is minus the
number of non-bonded H–H contacts. A fold changes through end, corner and
crankshaft moves. A Metropolis search applies these moves at one
temperature, and a replica exchange search runs a ladder of such searches at
50 evenly spaced temperatures and swaps neighbouring replicas between rounds.

The modules follow the source files:

- `amino.dfy` (`Amino`): the H/P classifier and the residue record.
- `lattice.dfy` (`Lattice`): positions, Manhattan geometry, numpy-style
  subscripts of the 2N×2N grid, the error kinds and `Result`.
- `conformation.dfy` (`Conformations`): the conformation and its placement
  (random walk or straight line, bounded retry), the free-neighbour lookup,
  the contact energy and the validity invariants (grid/array consistency,
  connectivity, self-avoidance).
- `moves.dfy` (`Moves`): the `Move` class and the writes its three methods
  perform on their private copy.
- `neighbourhood.dfy` (`Neighbourhood`): the enumeration of candidate moves.
- `mcsearch.dfy` (`McSearch`): the Metropolis search.
- `remc.dfy` (`Remc`): the replica exchange search.

A conformation is a value: a sequence, a residue list, a lattice map from
cell to residue index and a cached energy. The source only mutates a
conformation right after deep-copying it, so value semantics loses nothing.
The loops of the source are methods over values or arrays, each proved equal
to a function. The lemmas are stated about those functions.

Random draws are parameters. `rng.integers(low, high)` is `low + draw %
(high - low)` and raises on an empty range. `rng.random()` is a real
threshold. The exponential is a parameter `exp: real -> real`. Where a
property depends on it, the only fact assumed is that `exp(x) > 1` for
`x > 0`.

The model keeps the code's behaviour where it departs from the physics. Each
such place is stated as a lemma:

- The last residue's end moves look around residue `-1`, which is the
  residue itself. Such moves detach the tail from the chain
  (`LastEndMovesBreakChain`).
- The crankshaft sets the dragged neighbour's stored position to the moved
  residue's target. The two residues then share a position, so every
  crankshaft candidate overlaps (`CrankshaftOverlaps`,
  `CrankCandidatesOverlap`).
- Candidates keep the cached energy, so the Metropolis delta is always 0 and
  every proposal is taken (`EveryProposalAccepted`).
- The residue draw never reaches the last residue. With two or more
  candidates, the last candidate is never chosen
  (`LastCandidateNeverChosen`).
- With the exchange test `q <= exp(delta)` and `delta > 0`, every pair tried
  is swapped (`ExchangeAlwaysSwaps`). Trackers stay with their slots while
  replicas move, so the returned replica need not be the one that reached
  the lowest tracker (`TrackersStayBehind`).
- With a round limit above 0 and a negative target, more than 50 replicas
  make the search raise. The error is `IndexError` at `array_t[50]` unless a
  search raises first. When the chain has two residues or more, or the
  local searches take no step, the error is always `IndexError`
  (`LadderTooLong`).
- The backward crankshaft reflects residue k through residue k-1 rather than
  through k+1. On a square formed by residues k-2..k+1, the target then lies
  three steps from residue k+1, so the move breaks the chain even apart from
  the shared position (`BackwardTargetDetached`).
- The crankshaft test reads the lattice at reflected cells without checking
  the grid bounds. A valid U fold against the far edge then makes the
  candidate enumeration raise `IndexError`, which neither search catches
  (`FarEdgeFoldRaises`). Against the near edge, a reflected coordinate of -1
  wraps round instead, and the moved residue records a negative position
  (`NearEdgeFoldWraps`).

## Model

| member | source | states |
|---|---|---|
| Lattice.NpIndex | src/conformation.py:272 | a grid subscript in [-side, side) reaches a cell, counted from the far edge when negative; any other subscript raises |
| Lattice.NpCell | src/conformation.py:294 | a pair subscript resolves iff both coordinates do, always into the grid, and a cell inside the grid resolves to itself |
| Lattice.ReflectionOfNeighbour | src/conformation.py:292-293 | the cell `p + 2(q - p)` for adjacent p, q lies two steps from p and next to q |
| Lattice.SquareReflection | src/conformation.py:289-292 | in a unit square a-b-c-d, reflecting c through b lands three steps from d |
| Lattice.StepFlipsParity | src/conformation.py:222 | one lattice step flips the parity of the Manhattan distance to any cell |
| Amino.GetType | src/amino.py:30-34 | "H" exactly for the one-letter codes A, V, I, L, M, F, Y, W; every other string, including lower case, unknown or longer codes, is "P" |
| Amino.NewAminoAcid | src/amino.py:24-27 | position and index are stored as given; the class is "H" iff the code is in the hydrophobic list |
| Conformations.CreateAminoList | src/conformation.py:144-148 | one residue per letter; residue i has index i and the class of letter i |
| Conformations.Unplaced | src/conformation.py:177 | the residue list of a sequence on an empty lattice is well formed |
| Conformations.GetFreePos | src/conformation.py:193-214 | at most four cells, each empty, inside [0, 2N)² and adjacent to the start |
| Conformations.GetFreePosComplete | src/conformation.py:206-214 | every empty in-grid neighbour of the start is listed |
| Conformations.GetFreePosOrdered | src/conformation.py:207-213 | the cells come in the offset order (-1,0), (0,-1), (1,0), (0,1) and are distinct |
| Conformations.GetNextPosition | src/conformation.py:150-166 | raises iff the previous residue has no free neighbour; otherwise returns a free cell adjacent to it |
| Conformations.WalkFrom | src/conformation.py:188-191 | the walk fails only for lack of a free cell and keeps the sequence and the residue count |
| Conformations.WalkFromValid | src/conformation.py:188-191 | a walk that completes extends a consistent, connected prefix to the whole chain |
| Conformations.WalkKeepsStart | src/conformation.py:186-187 | the walk never moves residue 0 |
| Conformations.AssignPositions | src/conformation.py:168-191 | the placement method computes one placement attempt, line or walk |
| Conformations.LinePositions | src/conformation.py:178-183 | the line loop computes the straight-line layout |
| Conformations.LineStep | src/conformation.py:181-183 | each iteration of the line loop writes residue k's cell and position |
| Conformations.LineLayoutValid | src/conformation.py:178-183 | the line layout is valid and puts residue i at (N - N/2 + i, N) |
| Conformations.LineLayoutCells | src/conformation.py:179-182 | every cell written by the line layout is in the grid and owned by its residue |
| Conformations.RandomWalkPositions | src/conformation.py:184-191 | the walk loop computes the random walk from (N-1, N-1) on an empty lattice |
| Conformations.RandomWalkValid | src/conformation.py:184-191 | a completed walk is valid, keeps the sequence and has residue 0 at (N-1, N-1) |
| Conformations.AttemptValid | src/conformation.py:168-191 | a successful attempt is valid; a line attempt succeeds iff the sequence is not empty |
| Conformations.Attempt | src/conformation.py:168-191 | one placement attempt fails with `IndexError` iff the sequence is empty, and otherwise only with a walk dead end; a line attempt succeeds iff the sequence is not empty; success keeps the sequence and the residue count |
| Conformations.FirstOk | src/conformation.py:73-78 | the first successful attempt, or failure iff every attempt failed |
| Conformations.FirstOkStep | src/conformation.py:73-78 | one turn of the retry loop: keep a success, otherwise try the next attempt |
| Conformations.RetryValid | src/conformation.py:73-78 | the retried placement is valid and keeps the sequence |
| Conformations.Retry | src/conformation.py:73-78 | the retry loop succeeds iff some attempt succeeds, fails only when the attempts run out, and keeps the sequence |
| Conformations.EvaluateEnergy | src/conformation.py:216-224 | the double loop yields minus the contact count, never positive, and changes nothing else |
| Conformations.EnergyIdempotent | src/conformation.py:216-224 | evaluating the energy twice gives the same conformation as evaluating it once |
| Conformations.WithEnergy | src/conformation.py:216-224 | only the energy changes, and it becomes minus the number of non-bonded H-H contact pairs, defined as a set independently of the loop count |
| Conformations.ContactCountIsPairs | src/conformation.py:219-224 | the count is the number of pairs i < j that are both H, not bonded and adjacent |
| Conformations.AllPolarNoContacts | src/conformation.py:221 | an all-P chain has no contacts, so its energy is 0 |
| Conformations.ChainParity | src/conformation.py:222-223 | on a connected chain the Manhattan distance of residues i and j has the parity of j - i |
| Conformations.EvenGapNoContact | src/conformation.py:221-223 | on a valid fold, residues an even number apart are never in contact |
| Conformations.EnergyKeepsValid | src/conformation.py:79-82 | recomputing the energy keeps a valid fold valid |
| Conformations.ConstructValid | src/conformation.py:62-82 | a constructed conformation is valid, has its sequence and its fresh energy; failure means the attempts ran out |
| Conformations.Construct | src/conformation.py:62-82 | construction succeeds iff some placement attempt succeeds, fails only when the attempts run out, and yields a conformation of the sequence with a non-positive energy |
| Conformations.LineConstructSucceeds | src/conformation.py:73-78 | in line mode a non-empty sequence is placed at the first attempt |
| Conformations.NewConformation | src/conformation.py:62-82 | the constructor (residue list, retry loop, energy) computes the construction function |
| Moves.WriteCell | src/moves.py:53 | a grid write raises iff the subscript is out of numpy range; otherwise the cell numpy resolves holds the value (or is emptied) and nothing else changes |
| Moves.ShiftResidue | src/moves.py:53-55 | raises iff the target or the residue's current cell is out of numpy range; otherwise the target cell holds the residue, its current cell is emptied, it takes its new position, and every other residue, the sequence and the energy stay as they were |
| Moves.Crankshaft | src/moves.py:71-81 | the crankshaft raises only `IndexError` and keeps the sequence, the residue count and the energy |
| Moves.CrankshaftOnFreeCells | src/moves.py:71-81 | on a consistent fold with both cells free, the target holds the residue, the neighbour cell holds its partner, both former cells are empty, and both residues record the target as their position |
| Moves.Shift | src/moves.py:53-55 | the three statements of a move compute the residue shift |
| Moves.Move.constructor | src/moves.py:38-43 | the move stores its kind, residue and target, and snapshots the residue's old position |
| Moves.Move.EndMove | src/moves.py:48-55 | a kind mismatch raises before any change; otherwise the move's copy becomes the relocated conformation, or stays unchanged when a subscript raises |
| Moves.Move.CornerMove | src/moves.py:57-64 | the same as EndMove, for the corner kind |
| Moves.Move.CrankshaftMove | src/moves.py:66-81 | a kind mismatch raises before any change; otherwise the copy becomes the crankshaft result |
| Moves.RelocateOnFreeCell | src/moves.py:53-55 | moving to a free cell fills the target, empties the old cell, and sets only that residue's position |
| Moves.RelocateKeepsConsistent | src/moves.py:53-55 | moving to a free cell keeps the grid and the residue list consistent |
| Moves.RelocateRoundTrip | src/moves.py:53-55 | moving a residue back to its old cell restores the conformation |
| Moves.CrankshaftOverlaps | src/moves.py:79-81 | after a crankshaft the moved residue and its neighbour share one position, so the fold is no longer self-avoiding |
| Moves.RelocateKeepsValid | src/moves.py:62-64 | moving a residue to a free cell adjacent to both chain neighbours keeps the fold valid |
| Neighbourhood.CellEmpty | src/conformation.py:272 | reading a grid cell raises iff the subscript is out of numpy range; inside the grid it tells whether the cell is empty |
| Neighbourhood.RelocateAll | src/conformation.py:260-263 | one candidate per target, each with the source's sequence, residue count and energy |
| Neighbourhood.RelocateAllElements | src/conformation.py:260-263 | candidate i is the residue moved to target i |
| Neighbourhood.GetEndMoves | src/conformation.py:256-264 | at most four end candidates, each keeping sequence, size and energy |
| Neighbourhood.EndMovesOnConsistent | src/conformation.py:258-264 | on a consistent fold there is exactly one end candidate per free cell around the pivot (residue 1, or the last residue itself) |
| Neighbourhood.FirstEndMovesValid | src/conformation.py:259-263 | every end candidate of residue 0 is a valid fold |
| Neighbourhood.LastEndMovesBreakChain | src/conformation.py:259-260 | every end candidate of the last residue detaches it from residue N-2 |
| Neighbourhood.LastEndMoveBreaks | src/conformation.py:259-262 | moving the last residue to a free cell next to itself puts it two steps from residue N-2 |
| Neighbourhood.GetCornerMove | src/conformation.py:266-283 | at most one corner candidate, keeping sequence, size and energy |
| Neighbourhood.CornerMoveValid | src/conformation.py:268-282 | on a bent residue there is exactly one corner candidate iff the target cell is empty, and it is a valid fold |
| Neighbourhood.BackwardCrank | src/conformation.py:289-297 | at most one backward crankshaft candidate |
| Neighbourhood.BackwardCrankGuard | src/conformation.py:289-290 | no backward candidate unless 2 <= k <= N-2 and residue k-2 touches residue k+1 |
| Neighbourhood.BackwardCrankExists | src/conformation.py:289-297 | with the guard met on a consistent fold and both reflected cells in the grid, there is no error, and there is one candidate iff both reflected cells are empty; it is residue k reflected through k-1, dragging k-1 along |
| Neighbourhood.BackwardTargetDetached | src/conformation.py:289-297 | on a valid fold meeting the backward guard, the target reflects residue k through k-1: it stays next to k-1 but lies three steps from k+1, so every backward candidate breaks the chain |
| Neighbourhood.ForwardCrank | src/conformation.py:298-306 | at most one forward crankshaft candidate |
| Neighbourhood.ForwardCrankGuard | src/conformation.py:298-299 | no forward candidate unless 1 <= k <= N-3 and residue k-1 touches residue k+2 |
| Neighbourhood.ForwardCrankExists | src/conformation.py:298-306 | with the guard met on a consistent fold and both reflected cells in the grid, there is no error, and there is one candidate iff both reflected cells are empty; it is residue k reflected through k-1, dragging k+1 along |
| Neighbourhood.GetCrankshaftMove | src/conformation.py:285-308 | at most two crankshaft candidates |
| Neighbourhood.BackwardOverlaps | src/conformation.py:292-296 | every backward crankshaft candidate has two residues on one position |
| Neighbourhood.ForwardOverlaps | src/conformation.py:301-305 | every forward crankshaft candidate has two residues on one position |
| Neighbourhood.CrankCandidatesOverlap | src/conformation.py:285-308 | every crankshaft candidate has two residues on one position |
| Neighbourhood.GetPossibleMoves | src/conformation.py:226-254 | at most four candidates, each keeping sequence, size and energy; the only error is an out-of-range subscript |
| Neighbourhood.CandidatesValidOrOverlapping | src/conformation.py:241-251 | for any residue but the last, each candidate of a valid fold is valid or has two residues on one position |
| Neighbourhood.FarEdgeFoldRaises | src/conformation.py:292-294 | the valid U fold (7,0),(7,1),(6,1),(6,0) on the 8 x 8 grid makes the candidates of residue 2 raise `IndexError` at the reflected cell (8,1) |
| Neighbourhood.NearEdgeFoldWraps | src/conformation.py:292-296 | the valid U fold (0,0),(0,1),(1,1),(1,0) gives residue 2 one crankshaft candidate, whose reflected cell (-1,1) wraps to (7,1); the residue records (-1,1) while the lattice holds it at (7,1) |
| McSearch.Integers | src/mcsearch.py:31 | a draw in [low, high), raising iff the range is empty |
| McSearch.IntegersCovers | src/mcsearch.py:31 | every value of a non-empty range is drawn by some draw |
| McSearch.ChoiceIndex | src/mcsearch.py:35-38 | the chosen candidate index lies within the list |
| McSearch.LastCandidateNeverChosen | src/mcsearch.py:38 | with two or more candidates the last is never chosen, and every other one can be |
| McSearch.McStep | src/mcsearch.py:31-49 | a step raises `ValueError` iff the chain has at most one residue; otherwise the only error is an `IndexError`, and the sequence and size are kept |
| McSearch.McRun | src/mcsearch.py:30-50 | the search raises only those two errors and keeps the sequence and size |
| McSearch.McSearch | src/mcsearch.py:9-50 | the loop of `mc_search` computes the search function |
| McSearch.McRunUnfold | src/mcsearch.py:30-49 | one iteration of the loop: raise with the step or go on from its result |
| McSearch.EveryProposalAccepted | src/mcsearch.py:41-44 | with the candidates' cached energy the delta is 0, so the Metropolis step always takes the chosen candidate |
| McSearch.McRunKeepsFresh | src/mcsearch.py:42-49 | a search from a conformation whose energy is up to date returns one whose energy is up to date, hence never positive |
| McSearch.ShortChainRaises | src/mcsearch.py:31 | on a chain of at most one residue any search of one step or more raises |
| McSearch.LongChainRaisesIndexError | src/mcsearch.py:29-37 | a search of a chain of two residues or more, or of no steps, raises only `IndexError` |
| McSearch.StepValidOrOverlapping | src/mcsearch.py:31-49 | one step from a valid fold gives a valid fold or one with two residues on one position |
| Remc.LinspaceEnds | src/remc.py:38 | the ladder starts at t_min and ends at t_max |
| Remc.LinspaceIncreasing | src/remc.py:38 | the temperatures increase with the slot when t_min < t_max |
| Remc.LinspacePositive | src/remc.py:38 | positive bounds give positive temperatures |
| Remc.Temperature | src/remc.py:49 | slot i has a temperature iff i < 50, and it is positive |
| Remc.Argmin | src/remc.py:71 | the first index of a minimal tracker |
| Remc.MinTracker | src/remc.py:44 | the smallest tracker, raising on an empty ladder |
| Remc.MinOf | src/remc.py:44 | the loop over the tracker array computes the smallest tracker |
| Remc.SlotSearch | src/remc.py:46-51 | a slot's search keeps its sequence; its tracker is lowered exactly when the new energy is strictly below it |
| Remc.LocalPhase | src/remc.py:45-51 | the local phase keeps sizes and sequences and lowers each tracker only as the slot search allows; it can succeed only with at most 50 slots |
| Remc.LocalPhaseUnfold | src/remc.py:45-51 | one slot of the local phase: raise with the slot or go on from the next slot |
| Remc.LocalSearch | src/remc.py:45-51 | the slot loop on the two arrays computes the local phase |
| Remc.Swap | src/remc.py:58-60 | slots i and i+1 exchange their replicas and every other slot keeps its own |
| Remc.SwapPermutes | src/remc.py:58-60 | a swap loses no replica |
| Remc.SwapSlots | src/remc.py:58-60 | the swap through a temporary computes Swap on the array |
| Remc.ExchangeUnfold | src/remc.py:53-67 | one pair of the exchange: swap or not by the criterion, then go on two slots further |
| Remc.ExchangePermutes | src/remc.py:52-67 | the exchange phase only permutes the replicas |
| Remc.ExchangeAlwaysSwaps | src/remc.py:55-66 | when exp exceeds 1 on positive inputs, every pair tried is swapped, whatever the temperatures and trackers |
| Remc.ExchangeStep | src/remc.py:57-66 | under the same condition, the first pair tried is swapped |
| Remc.ExchangePhase | src/remc.py:52-67 | the pair loop on the replica array computes the exchange phase; the trackers are untouched |
| Remc.ExchangeFrom | src/remc.py:52-67 | the exchange phase from a slot keeps the ladder size and leaves every slot before it untouched; ExchangePermutes and ExchangeAlwaysSwaps state what it does to the replicas |
| Remc.Round | src/remc.py:45-69 | a round keeps the ladder's size and shape, counts one more round, flips the offset and never raises a tracker |
| Remc.RoundUnfold | src/remc.py:45-69 | a round is the local phase followed by the exchange phase from the current offset |
| Remc.RoundKeepsSequence | src/remc.py:45-67 | a round keeps every replica on the start sequence |
| Remc.RemcLoop | src/remc.py:44-69 | the loop raises on an empty ladder, otherwise only the search errors, and keeps the ladder's size |
| Remc.RemcLoopUnfold | src/remc.py:44-69 | one turn of the loop whose condition holds: raise with the round or go on from its state |
| Remc.RemcLoopOutcome | src/remc.py:44-69 | the loop never decreases the round count, trackers only go down, and it stops before the round limit only once the lowest tracker has reached the target |
| Remc.RemcLoopKeepsSequence | src/remc.py:44-69 | the loop keeps every replica on the start sequence |
| Remc.NextRound | src/remc.py:67-69 | a round keeps the loop state well formed, and the offset stays the parity of the round count |
| Remc.Remc | src/remc.py:8-72 | the result folds the start sequence; an empty ladder raises; only the search errors can occur |
| Remc.RemcRound | src/remc.py:45-69 | one round on the arrays computes Round |
| Remc.RemcRounds | src/remc.py:42-69 | the while loop on the arrays computes the loop function |
| Remc.RemcSearch | src/remc.py:37-72 | `remc` on arrays computes the search function |
| Remc.TargetMetAtStart | src/remc.py:37-44 | with a target at or above 0, no round runs and the start conformation comes back |
| Remc.EmptyLadderRaises | src/remc.py:44 | with no replicas, `min` raises at once |
| Remc.LadderTooLong | src/remc.py:43-49 | with more than 50 replicas, a round limit above 0 and a negative target, the search raises; with two residues or more, or no local steps, the error is `IndexError` |
| Remc.LocalPhaseIndexError | src/remc.py:44-50 | when every remaining slot searches a chain of two residues or more, or takes no step, the local phase raises only `IndexError` |
| Remc.RemcTrackers | src/remc.py:37-51 | every final tracker is at most 0, and below the round limit the lowest one has reached the target |
| Remc.TrackersStayBehind | src/remc.py:55-72 | on a two-slot ladder whose slot 0 has the lower tracker, the exchange puts slot 1's replica into the slot `argmin` picks |

## Left out

- Floating point is replaced by Dafny's exact reals. `np.exp` is a parameter, and `BOLTZMANN` and the `linspace` values are exact.
- The generators are replaced by the values they return. A Metropolis step takes a residue draw, a candidate draw and a threshold whether or not it uses them. Each exchange pair has a threshold whether or not it is drawn. Statistical properties are out of scope.
- `np.linalg.norm` on integer vectors is replaced by the Manhattan distance, with which it agrees at the thresholds used (1 and 1.1).
- Remc.Remc: requires positive `t_min` and `t_max`, because the exchange delta divides by each temperature and exact reals need a nonzero divisor. With a zero temperature, numpy's float division would give inf or nan with a warning rather than raise, and the source would carry that value on. With nan, `q <= exp(delta)` is false, so that pair would never swap.
- Remc.Temperature: requires positive `t_min` and `t_max`, for the same reason.
- McSearch.McStep: requires a positive temperature, for the same reason. In the source, `mc_search` divides by the temperature only when the energy delta is positive, and `EveryProposalAccepted` shows that this never happens.
- Conformations.NewConformation: the unbounded `while True` retry is bounded by the draw sequences supplied. Running out of them is the error `PlacementExhausted`, which the source never raises.
- Conformations.NewConformation: each placement attempt starts from the freshly built residue list. In the source, a failed attempt leaves stale positions that the next attempt overwrites before reading them.
- Conformations.WalkKeepsStart: states only that residue 0 stays in place. `WalkFromValid` covers the other residues.
- The copy arguments of the `Conformation` constructor (`amino_list`, `lattice`, `energy`) are not modelled. Only fresh construction is.
- The "pull" neighbourhood is not modelled: it is a placeholder that adds nothing.
- `__str__`, `get_extr_coor`, main.py, src/sequence_ff.py and bin/ are not part of this model. They are display, I/O and unused drafts.
- Neighbourhood.GetCornerMove: requires an interior residue, as `get_possible_moves`, its only caller, guarantees.
- A candidate move is represented by the conformation it produced, and the `Move` object around it is dropped.
- Moves and searches work on values. The deep copies of the source make aliasing unobservable. A move that raises part-way discards its copy, just as the source discards the half-written `Move`.
- Conformations as numpy object arrays are sequences of residue records. The replica ladder and the trackers are Dafny arrays, and the trackers are integers (numpy stores them as floats holding integer values).
