# Hex engine: a verified model

This project is a Dafny model of the game engine behind a Hex app for Android. Red (the human) and Blue (the bot) take turns on an
N×N board of hexagonal cells. Red tries to join the top and bottom edges, and Blue tries to join the left and right edges.
The bot picks its move with alpha-beta search or a genetic algorithm. A small fuzzy controller decides which one to use.

The model has one module per source file:

- **Boards** (`board.dfy`) holds the shared vocabulary:
  - the cell colours `MyColor` and their ids;
  - the board, a `MyColor[N][N]` array, as `array2<MyColor>`;
  - its value `Board` (`seq<seq<MyColor>>`), read from the array by `Snapshot`;
  - placing a stone, blank counting, row-major indices, and Java's truncating `/`.
- **Cells** (`cell.dfy`) holds the classes `Cell` and `CellState`:
  - their equality and hash, which ignore the colour;
  - their reset;
  - 32-bit wrap-around of the hash.
- **Calculator** (`calculator.dfy`) decides who has won:
  - a breadth-first flood from each edge cell, in the six hex directions;
  - the edge scan of `calcBoardScore`, with and without its early exit;
  - `getGameWinner` and `getBoardScore`.
- **AlphaBeta** (`alphabeta.dfy`) is the bot's minimax search with alpha-beta pruning:
  - class `AlphaBetaApplier` holds the state;
  - a depth limit that grows with the number of blank cells;
  - a root pass over every blank cell that keeps the first best move;
  - a progress counter and a time-limit flag.
  - The search is proved equal to plain minimax, up to clamping into the alpha-beta window.
- **Crossover** (`pmx.dfy`) is the partially mapped crossover used by the genetic algorithm.
  It is proved to produce permutations of the parents' cells, and each child is proved to be the only one that copies the other parent's segment and takes, at every other position, the end of its cell's chain through the segment table.
- **Genetic** (`genetic.dfy`) is the genetic bot:
  - class `GeneticApplier` holds the state;
  - the population is ten chromosomes, each an ordering of the blank cells;
  - the first half of each chromosome is coloured red and the second half blue;
  - the steps are tournament selection, crossover, mutation by swapping two cells, and fitness (lower is better for blue);
  - every generation is bred from the initial population;
  - the loop keeps a generation's winner only when its fitness is higher than the kept one;
  - the kept chromosome is stored, its first blue cell is played, and it is replayed on the next turn while it still wins.
- **Fuzzy** (`fuzzy.dfy`) is the fuzzy selector. It has:
  - trapezoidal memberships for "number of empty cells" and "time the last alpha-beta search took";
  - min/max inference;
  - a centroid defuzzifier over 0..100;
  - the choice of algorithm.
- **Helper** (`helper.dfy`) writes a board out as a string of `R`/`B`/`L` letters.
  It is proved injective by decoding it back.
- **Game** (`gameboard.dfy`) is the engine's part of class `GameBoard`:
  - the grid of cell states;
  - the turn flags;
  - a human move, and restart;
  - the swapped, fixed and requested prediction algorithm;
  - the running average of the bot's thinking time.

Two behaviours of `predict` are modelled as the code has them (GeneticApplier.java:284-308), not as a textbook genetic algorithm would have them:

- Adoption runs the wrong way. `getTheBest` treats the lowest fitness as the best. The main loop, however, replaces the kept chromosome only when the generation's winner has a strictly HIGHER fitness (`localBestVal > globalBestVal`). The search therefore ends with the highest "least fitness" it met, never below the least fitness of the initial population (`Genetic.EvolutionKeepsHighest`).
- No generation replaces the population. Every generation breeds its offspring from the initial population `populations`, so the offspring of one generation is never the parent pool of the next.

Java's `int` is an unbounded `int` here, with explicit wrap-around where the value can overflow (the hash and the time average).
Java's integer division is `JavaDiv` (it truncates toward zero). Java's `double` is `real`.
The random generator is an arbitrary stream of draws, `nat -> nat`, read through a cursor.

## Model

| member | source | states |
|---|---|---|
| Boards.MyColor.Id | app/src/main/java/com/unknownn/aiproject/classes/CellState.java:54-61 | ids are 0..2, and the id is 0 exactly for BLANK |
| Boards.Place | app/src/main/java/com/unknownn/aiproject/classes/AlphaBetaApplier.java:135-159 | placing a stone sets exactly one cell and leaves every other cell unchanged |
| Boards.Put | app/src/main/java/com/unknownn/aiproject/classes/AlphaBetaApplier.java:135-159 | writing a colour into the array gives the board with that stone placed |
| Boards.CountBlankBound | app/src/main/java/com/unknownn/aiproject/classes/GameBoard.java:643-651 | an N×N board has at most N·N blank cells |
| Cells.WrapInt | app/src/main/java/com/unknownn/aiproject/classes/Cell.java:32-34 | the result is a 32-bit int congruent to the input modulo 2^32 |
| Cells.Cell.constructor | app/src/main/java/com/unknownn/aiproject/classes/Cell.java:11-15 | a cell holds the given coordinates and colour |
| Cells.Cell.Copy | app/src/main/java/com/unknownn/aiproject/classes/Cell.java:17-21 | the copy has the same coordinates and colour as the original |
| Cells.Cell.Value | app/src/main/java/com/unknownn/aiproject/classes/Cell.java:11-15 | the value of a cell has its coordinates and colour |
| Cells.Cell.SetMyColor | app/src/main/java/com/unknownn/aiproject/classes/Cell.java:26-28 | the colour becomes the given one |
| Cells.Cell.HashCode | app/src/main/java/com/unknownn/aiproject/classes/Cell.java:32-34 | the hash of (x, y) is a 32-bit int |
| Cells.IsRedMeansRed | app/src/main/java/com/unknownn/aiproject/classes/Cell.java:23-25 | isRed holds exactly when the colour is RED |
| Cells.EqualsIgnoresColour | app/src/main/java/com/unknownn/aiproject/classes/Cell.java:37-47 | two cells are equal exactly when their coordinates agree, whatever their colours |
| Cells.EqualsIsReflexiveAndSymmetric | app/src/main/java/com/unknownn/aiproject/classes/Cell.java:37-47 | equals is reflexive and symmetric |
| Cells.EqualCellsHashEqually | app/src/main/java/com/unknownn/aiproject/classes/Cell.java:32-47 | equal cells have equal hashes |
| Cells.CellState.constructor | app/src/main/java/com/unknownn/aiproject/classes/CellState.java:11-14 | a new cell state is BLANK with an empty score at the given coordinates |
| Cells.CellState.Reset | app/src/main/java/com/unknownn/aiproject/classes/CellState.java:16-19 | reset makes the cell BLANK and clears its score |
| Cells.CellState.SetMyColor | app/src/main/java/com/unknownn/aiproject/classes/Cell.java:26-28 | the colour becomes the given one |
| Cells.CellStateAccessors | app/src/main/java/com/unknownn/aiproject/classes/CellState.java:22-37 | isBlank holds exactly when getMyColor is BLANK, and getMyColor returns the colour |
| Calculator.OffsetIndex | app/src/main/java/com/unknownn/aiproject/classes/Calculator.java:106 | every hex direction is one of the six neighbour offsets |
| Calculator.OffsetsAreHexDirections | app/src/main/java/com/unknownn/aiproject/classes/Calculator.java:106 | each of the six offsets is a hex direction |
| Calculator.AdjacencySymmetric | app/src/main/java/com/unknownn/aiproject/classes/Calculator.java:106 | hex adjacency is symmetric |
| Calculator.PathFront | app/src/main/java/com/unknownn/aiproject/classes/Calculator.java:89-141 | a prefix of a same-colour path is a same-colour path |
| Calculator.PathExtend | app/src/main/java/com/unknownn/aiproject/classes/Calculator.java:89-141 | a same-colour path grows by an adjacent same-colour cell |
| Calculator.ClosedHoldsPath | app/src/main/java/com/unknownn/aiproject/classes/Calculator.java:102-138 | a set closed under same-colour adjacency contains every path from its start |
| Calculator.ClosedFloodDecides | app/src/main/java/com/unknownn/aiproject/classes/Calculator.java:102-138 | a closed flood reaches the far edge exactly when some same-colour path connects the start to it |
| Calculator.GetOrDefault | app/src/main/java/com/unknownn/aiproject/classes/Calculator.java:119-130 | getOrDefault gives the stored value for a present key and the default otherwise |
| Calculator.LinearKeyMiss | app/src/main/java/com/unknownn/aiproject/classes/Calculator.java:119-130 | a cell that was never visited is not a key of the parent map |
| Calculator.FloodDiscover | app/src/main/java/com/unknownn/aiproject/classes/Calculator.java:102-138 | visiting a new same-colour neighbour keeps the flood invariant |
| Calculator.FloodExpand | app/src/main/java/com/unknownn/aiproject/classes/Calculator.java:102-138 | once all six neighbours are seen, the dequeued cell is done |
| Calculator.FloodDecides | app/src/main/java/com/unknownn/aiproject/classes/Calculator.java:102-140 | when the queue is empty, the visited set meets the far edge exactly when the start connects to it |
| Calculator.VisitNeighbour | app/src/main/java/com/unknownn/aiproject/classes/Calculator.java:108-136 | one neighbour step keeps the search invariant, queues exactly the newly seen cell, and shrinks the unseen cells |
| Calculator.MarkVisited | app/src/main/java/com/unknownn/aiproject/classes/Calculator.java:108-136 | marking a cell visited records it in the visited array |
| Calculator.ExpandCell | app/src/main/java/com/unknownn/aiproject/classes/Calculator.java:102-138 | expanding a dequeued cell keeps the invariant and marks the cell done |
| Calculator.DrainQueue | app/src/main/java/com/unknownn/aiproject/classes/Calculator.java:102-138 | after the queue loop every seen cell is done |
| Calculator.ConnectedToEndBy | app/src/main/java/com/unknownn/aiproject/classes/Calculator.java:89-141 | the score is 0 when the cell is joined by its colour to the far edge and -N otherwise; a blank cell scores 0 |
| Calculator.StartScoreCases | app/src/main/java/com/unknownn/aiproject/classes/Calculator.java:37-73 | a start cell scores 0 exactly when it is owned and connects, and -N otherwise |
| Calculator.EdgeScanRange | app/src/main/java/com/unknownn/aiproject/classes/Calculator.java:33-80 | a scan that runs to the end leaves posScore at 0 or NO_WIN, and without noOptimization it always runs to the end |
| Calculator.EdgeWinsStep | app/src/main/java/com/unknownn/aiproject/classes/Calculator.java:37-73 | an edge wins from i exactly when cell i connects or the edge wins from i+1 |
| Calculator.EdgeScanDecides | app/src/main/java/com/unknownn/aiproject/classes/Calculator.java:33-80 | for N ≠ 100, with noOptimization the scan stops early exactly when some edge cell connects; without it posScore ends at 0 exactly when one does |
| Calculator.ScanEdge | app/src/main/java/com/unknownn/aiproject/classes/Calculator.java:37-73 | the loop over one edge computes the scan function |
| Calculator.CalcBoardScore | app/src/main/java/com/unknownn/aiproject/classes/Calculator.java:33-80 | the method returns the red and blue scores of the scan |
| Calculator.BoardScoreRange | app/src/main/java/com/unknownn/aiproject/classes/Calculator.java:28-31 | the board score is 1000, 0 or -1000 |
| Calculator.BoardScoreMeaning | app/src/main/java/com/unknownn/aiproject/classes/Calculator.java:28-31 | the board score is +1000 for a red win minus 1000 for a blue win (N ≠ 100) |
| Calculator.WinnerMeaning | app/src/main/java/com/unknownn/aiproject/classes/Calculator.java:15-26 | the winner is RED if red connects, else BLUE if blue connects, else none |
| Calculator.GetGameWinner | app/src/main/java/com/unknownn/aiproject/classes/Calculator.java:15-26 | the winner is never BLANK; it is RED for N=0, and otherwise it follows which side connects its two edges |
| Calculator.GetBoardScore | app/src/main/java/com/unknownn/aiproject/classes/Calculator.java:28-31 | the score is 1000, 0 or -1000 and follows which side connects |
| AlphaBeta.Clamp | app/src/main/java/com/unknownn/aiproject/classes/AlphaBetaApplier.java:140-156 | the value is clamped into [lo, hi] and left alone inside it |
| AlphaBeta.MinimaxRange | app/src/main/java/com/unknownn/aiproject/classes/AlphaBetaApplier.java:122-161 | minimax values stay within the int range |
| AlphaBeta.MovesRange | app/src/main/java/com/unknownn/aiproject/classes/AlphaBetaApplier.java:135-159 | the move fold stays within the int range |
| AlphaBeta.MovesMonotone | app/src/main/java/com/unknownn/aiproject/classes/AlphaBetaApplier.java:140-156 | maximising never lowers the accumulator, and minimising never raises it |
| AlphaBeta.MovesNoBlank | app/src/main/java/com/unknownn/aiproject/classes/AlphaBetaApplier.java:135-159 | with no blank cell the fold returns its initial value |
| AlphaBeta.MinimaxLeaves | app/src/main/java/com/unknownn/aiproject/classes/AlphaBetaApplier.java:123-133 | the depth limit gives the board score, a won board gives its terminal value, and a full board gives the initial best |
| AlphaBeta.MaxStep | app/src/main/java/com/unknownn/aiproject/classes/AlphaBetaApplier.java:140-147 | a maximising step that agrees up to clamping keeps agreeing |
| AlphaBeta.MinStep | app/src/main/java/com/unknownn/aiproject/classes/AlphaBetaApplier.java:148-156 | a minimising step that agrees up to clamping keeps agreeing |
| AlphaBeta.PlaceUndo | app/src/main/java/com/unknownn/aiproject/classes/AlphaBetaApplier.java:140-156 | placing a stone on a blank cell and then blanking it restores the board |
| AlphaBeta.DepthLimit | app/src/main/java/com/unknownn/aiproject/classes/AlphaBetaApplier.java:205-222 | the depth limit is at least a sixth of the blanks and at most the number of blanks |
| AlphaBeta.Update | app/src/main/java/com/unknownn/aiproject/classes/AlphaBetaApplier.java:183-196 | the best value becomes the maximum, and the best cell is kept or becomes this cell |
| AlphaBeta.RootSkip | app/src/main/java/com/unknownn/aiproject/classes/AlphaBetaApplier.java:97-109 | skipping an occupied cell keeps the root invariant |
| AlphaBeta.RootStep | app/src/main/java/com/unknownn/aiproject/classes/AlphaBetaApplier.java:183-196 | updating at a blank cell keeps the root invariant |
| AlphaBeta.RootFoldKeeps | app/src/main/java/com/unknownn/aiproject/classes/AlphaBetaApplier.java:97-109 | the whole root pass establishes the invariant over every cell |
| AlphaBeta.RootChoiceIsFirstBest | app/src/main/java/com/unknownn/aiproject/classes/AlphaBetaApplier.java:80-120 | the chosen cell is blank, no other blank cell has a higher value, and it is the first in row-major order among equal values; no choice means every value is MIN_VALUE |
| AlphaBeta.ProgressBound | app/src/main/java/com/unknownn/aiproject/classes/AlphaBetaApplier.java:198-199 | reported progress lies in 0..100 |
| AlphaBeta.AlphaBetaApplier.constructor | app/src/main/java/com/unknownn/aiproject/classes/AlphaBetaApplier.java:36-43 | a new applier has no progress and is not stopped |
| AlphaBeta.AlphaBetaApplier.TimeLimitExceeded | app/src/main/java/com/unknownn/aiproject/classes/AlphaBetaApplier.java:52-77 | the timer sets the stop flag |
| AlphaBeta.AlphaBetaApplier.PredictDepthLimit | app/src/main/java/com/unknownn/aiproject/classes/AlphaBetaApplier.java:205-222 | the limit is DepthLimit of the blank count and never exceeds the blanks |
| AlphaBeta.AlphaBetaApplier.SubmitToThread | app/src/main/java/com/unknownn/aiproject/classes/AlphaBetaApplier.java:163-203 | unless stopped, BLUE is tried at the cell, the best move is updated with its minimax value, and one progress unit is reported |
| AlphaBeta.AlphaBetaApplier.ReportProgress | app/src/main/java/com/unknownn/aiproject/classes/AlphaBetaApplier.java:198-199 | the counter goes up by one and 100·count/N² is appended |
| AlphaBeta.AlphaBetaApplier.PredictCell | app/src/main/java/com/unknownn/aiproject/classes/AlphaBetaApplier.java:100-108 | one root cell: an occupied cell changes nothing, and a blank cell is submitted |
| AlphaBeta.AlphaBetaApplier.PredictRow | app/src/main/java/com/unknownn/aiproject/classes/AlphaBetaApplier.java:97-109 | one row of the root pass folds its cells and reports N progress units |
| AlphaBeta.AlphaBetaApplier.Predict | app/src/main/java/com/unknownn/aiproject/classes/AlphaBetaApplier.java:80-120 | unless stopped, the answer is the first best blank cell; progress only grows and stays within 0..100; a stop gives no cell |
| AlphaBeta.AlphaBetaApplier.ApplyAlphaBeta | app/src/main/java/com/unknownn/aiproject/classes/AlphaBetaApplier.java:122-161 | the board is restored; up to clamping into [alpha, beta] the result is the minimax value, and exactly it for the full window |
| AlphaBeta.AlphaBetaApplier.SearchMoves | app/src/main/java/com/unknownn/aiproject/classes/AlphaBetaApplier.java:133-159 | the move loop with cut-offs agrees with the full move fold up to clamping |
| AlphaBeta.AlphaBetaApplier.PlayCell | app/src/main/java/com/unknownn/aiproject/classes/AlphaBetaApplier.java:136-157 | one move is played, searched and undone; alpha or beta is tightened and the best is kept |
| Crossover.Coords | app/src/main/java/com/unknownn/aiproject/classes/GeneticApplier.java:73-135 | the coordinates of a chromosome, one per cell |
| Crossover.Segment | app/src/main/java/com/unknownn/aiproject/classes/GeneticApplier.java:81-82 | the first cut lies in the first half and the second cut in the second half |
| Crossover.TrailStep | app/src/main/java/com/unknownn/aiproject/classes/GeneticApplier.java:98-110 | one step of the mapping chain keeps the chain's trail |
| Crossover.WalkBack | app/src/main/java/com/unknownn/aiproject/classes/GeneticApplier.java:98-110 | the inverse map undoes one step of the chain |
| Crossover.WalkSettled | app/src/main/java/com/unknownn/aiproject/classes/GeneticApplier.java:98-110 | once the walk leaves the map's keys it stays put |
| Crossover.FollowChain | app/src/main/java/com/unknownn/aiproject/classes/GeneticApplier.java:98-110 | the while-containsKey loop ends at a cell outside the map, reached from the start by the inverse map |
| Crossover.SegmentMapsInverse | app/src/main/java/com/unknownn/aiproject/classes/GeneticApplier.java:87-93 | the two segment maps are inverses of each other |
| Crossover.ChildIsPermutation | app/src/main/java/com/unknownn/aiproject/classes/GeneticApplier.java:95-120 | a child filled by following the chains is a permutation of the parent |
| Crossover.FillSegment | app/src/main/java/com/unknownn/aiproject/classes/GeneticApplier.java:87-93 | inside the segment each child copies the other parent, and the two maps are the segment tables from one parent's segment cells to the other's |
| Crossover.CrossPosition | app/src/main/java/com/unknownn/aiproject/classes/GeneticApplier.java:95-120 | one position outside the segment is filled by following the chain |
| Crossover.FillOutside | app/src/main/java/com/unknownn/aiproject/classes/GeneticApplier.java:95-120 | every position outside the segment is filled |
| Crossover.FilledChild | app/src/main/java/com/unknownn/aiproject/classes/GeneticApplier.java:95-132 | a filled child is a half-coloured permutation that copies the segment and holds, at every other position, the cell where the mapping loop from the parent's cell stops |
| Crossover.Cross | app/src/main/java/com/unknownn/aiproject/classes/GeneticApplier.java:77-134 | both children keep the crossover's promise: half-coloured permutations of the parents' cells, with the other parent's cells on the segment and, at every other position, the end of the chain from the own parent's cell through the segment table, which determines the child |
| Crossover.WalkForward | app/src/main/java/com/unknownn/aiproject/classes/GeneticApplier.java:98-101 | one more pass of the mapping loop applies the map to where the walk stands |
| Crossover.ChainEndUnique | app/src/main/java/com/unknownn/aiproject/classes/GeneticApplier.java:98-101 | the mapping loop from a given cell can stop at one cell only |
| Crossover.SegmentTableIsTable | app/src/main/java/com/unknownn/aiproject/classes/GeneticApplier.java:87-93 | the map built by the segment loop sends each of one parent's segment cells to the other parent's cell at the same index |
| Crossover.SegmentTableKeys | app/src/main/java/com/unknownn/aiproject/classes/GeneticApplier.java:87-93 | the keys of the segment table are exactly the segment cells it was built from |
| Crossover.CrossedOutside | app/src/main/java/com/unknownn/aiproject/classes/GeneticApplier.java:95-113 | outside the segment a child never holds a cell of the other parent's segment, and keeps its parent's cell when that cell does not clash |
| Crossover.CrossedChildUnique | app/src/main/java/com/unknownn/aiproject/classes/GeneticApplier.java:86-120 | two children that keep the crossover's promise for the same parents and segment are equal |
| Crossover.ExampleTable | app/src/main/java/com/unknownn/aiproject/classes/GeneticApplier.java:87-93 | for parents A B C D and C D A B on segment [1, 3) the table for child one maps D to B and A to C |
| Crossover.ExampleChildCrossed | app/src/main/java/com/unknownn/aiproject/classes/GeneticApplier.java:86-120 | for those parents the child C D A B keeps the crossover's promise |
| Crossover.CrossedChildExample | app/src/main/java/com/unknownn/aiproject/classes/GeneticApplier.java:86-120 | for those parents every child that keeps the promise has the cells C D A B, so a clash is settled by the chain and not freely |
| Crossover.ApplyCrossover | app/src/main/java/com/unknownn/aiproject/classes/GeneticApplier.java:73-135 | two offspring over the segment the two draws give, child one crossing parent one with parent two and child two the reverse, each keeping the crossover's promise and so fixed cell by cell |
| Genetic.RowBlanks | app/src/main/java/com/unknownn/aiproject/classes/GeneticApplier.java:171-177 | the blank cells of a row prefix, distinct and counted by BlanksInRow |
| Genetic.BlankRows | app/src/main/java/com/unknownn/aiproject/classes/GeneticApplier.java:171-177 | the blank cells of the first k rows, distinct and counted |
| Genetic.BlankCellsMeaning | app/src/main/java/com/unknownn/aiproject/classes/GeneticApplier.java:171-177 | the empty list holds exactly the blank cells, each once |
| Genetic.ArrangementOfBlanks | app/src/main/java/com/unknownn/aiproject/classes/GeneticApplier.java:186-211 | a chromosome over the blanks has distinct on-board blank cells |
| Genetic.Overlay | app/src/main/java/com/unknownn/aiproject/classes/GeneticApplier.java:152-164 | overlaying a chromosome gives an N×N board |
| Genetic.OverlayMeaning | app/src/main/java/com/unknownn/aiproject/classes/GeneticApplier.java:156-162 | each chromosome cell gets its colour, and all other cells keep the board's colour |
| Genetic.Fitnesses | app/src/main/java/com/unknownn/aiproject/classes/GeneticApplier.java:148-150 | one fitness per chromosome |
| Genetic.FirstLeastStep | app/src/main/java/com/unknownn/aiproject/classes/GeneticApplier.java:148-150 | the running minimum keeps the first least index |
| Genetic.SwapRecolorArrangement | app/src/main/java/com/unknownn/aiproject/classes/GeneticApplier.java:45-69 | swapping two cells and keeping the half colours leaves an arrangement of the same cells |
| Genetic.SwapRecolorTwice | app/src/main/java/com/unknownn/aiproject/classes/GeneticApplier.java:45-69 | swapping twice restores the chromosome |
| Genetic.IndexOfCell | app/src/main/java/com/unknownn/aiproject/classes/Cell.java:37-47 | the first index whose cell equals the given one, or -1 |
| Genetic.RemoveFirstOfMember | app/src/main/java/com/unknownn/aiproject/classes/GeneticApplier.java:225-248 | removing a member shortens the list by one; with distinct cells it removes exactly that position |
| Genetic.Prune | app/src/main/java/com/unknownn/aiproject/classes/GeneticApplier.java:225-233 | the pruned copy is a board and the pruned list stays on the board |
| Genetic.PruneStep | app/src/main/java/com/unknownn/aiproject/classes/GeneticApplier.java:225-233 | one step writes a blank position and removes an occupied one |
| Genetic.PruneLeavesBlanks | app/src/main/java/com/unknownn/aiproject/classes/GeneticApplier.java:225-233 | every kept cell was blank on the current board |
| Genetic.FirstBlue | app/src/main/java/com/unknownn/aiproject/classes/GeneticApplier.java:240-248 | the first blue cell, or -1 when there is none |
| Genetic.HalvedHasBlue | app/src/main/java/com/unknownn/aiproject/classes/GeneticApplier.java:240-248 | a half-coloured chromosome of two or more cells has a blue cell |
| Genetic.CrossedArrangement | app/src/main/java/com/unknownn/aiproject/classes/GeneticApplier.java:288-300 | crossing two arrangements of the blanks gives an arrangement of the blanks |
| Genetic.FirstLeastBound | app/src/main/java/com/unknownn/aiproject/classes/GeneticApplier.java:148-150 | the chosen best has the least fitness of the population |
| Genetic.ProgressReportsRange | app/src/main/java/com/unknownn/aiproject/classes/GeneticApplier.java:310-311 | 250 reports, each in 0..100, non-decreasing, ending at 100 |
| Genetic.BredByAppend | app/src/main/java/com/unknownn/aiproject/classes/GeneticApplier.java:288-298 | one more round appends its pair to the offspring bred so far |
| Genetic.GenerationStep | app/src/main/java/com/unknownn/aiproject/classes/GeneticApplier.java:301-308 | a generation keeps a chromosome together with its fitness and never lowers the kept value |
| Genetic.KeptUpTo | app/src/main/java/com/unknownn/aiproject/classes/GeneticApplier.java:284-308 | after m generations the kept value is the kept chromosome's fitness and no earlier kept value exceeds it |
| Genetic.EvolutionKeepsHighest | app/src/main/java/com/unknownn/aiproject/classes/GeneticApplier.java:280-308 | along any run the kept value is the fitness of the kept chromosome and never decreases, starting from the least fitness of the initial population: the loop ends with the highest least fitness it met |
| Genetic.GeneticApplier.constructor | app/src/main/java/com/unknownn/aiproject/classes/GeneticApplier.java:20-35 | a new applier has no stored solution and no progress |
| Genetic.GeneticApplier.NextDraw | app/src/main/java/com/unknownn/aiproject/classes/GeneticApplier.java:20 | the next draw of the random stream |
| Genetic.GeneticApplier.NextInt | app/src/main/java/com/unknownn/aiproject/classes/GeneticApplier.java:20 | nextInt(bound) is the draw modulo the bound |
| Genetic.GeneticApplier.MutateChildren | app/src/main/java/com/unknownn/aiproject/classes/GeneticApplier.java:45-69 | below the 5% rate two distinct cells are swapped, otherwise nothing changes; the arrangement is kept |
| Genetic.GeneticApplier.CalcFitness | app/src/main/java/com/unknownn/aiproject/classes/GeneticApplier.java:152-164 | the fitness is the board score of the overlay: 1000, 0 or -1000 |
| Genetic.GeneticApplier.GetTheBest | app/src/main/java/com/unknownn/aiproject/classes/GeneticApplier.java:148-150 | the best is the first chromosome of least fitness |
| Genetic.GeneticApplier.GetParentFromTournament | app/src/main/java/com/unknownn/aiproject/classes/GeneticApplier.java:137-146 | two draws pick two entrants, and the first of least fitness wins |
| Genetic.GeneticApplier.RandomArrangement | app/src/main/java/com/unknownn/aiproject/classes/GeneticApplier.java:186-211 | the chromosome is a half-coloured arrangement of the empty list |
| Genetic.GeneticApplier.InitPopulation | app/src/main/java/com/unknownn/aiproject/classes/GeneticApplier.java:167-214 | no population exactly when there are fewer than ten blanks; otherwise ten arrangements of the blanks |
| Genetic.GeneticApplier.CollectBlanks | app/src/main/java/com/unknownn/aiproject/classes/GeneticApplier.java:171-177 | the empty list is the blank cells in row-major order |
| Genetic.GeneticApplier.CollectRow | app/src/main/java/com/unknownn/aiproject/classes/GeneticApplier.java:172-176 | the blank cells of one row |
| Genetic.GeneticApplier.IsPrevSolutionWinnable | app/src/main/java/com/unknownn/aiproject/classes/GeneticApplier.java:216-238 | no stored solution is not winnable; otherwise the solution is pruned and is winnable exactly when the pruned copy is a blue win |
| Genetic.GeneticApplier.PruneOnCopy | app/src/main/java/com/unknownn/aiproject/classes/GeneticApplier.java:225-233 | the reverse loop computes Prune on the copied board |
| Genetic.GeneticApplier.ChooseTheBestCellToPlace | app/src/main/java/com/unknownn/aiproject/classes/GeneticApplier.java:240-248 | the first blue cell is returned and removed from the stored solution; without one nothing changes |
| Genetic.GeneticApplier.PickParents | app/src/main/java/com/unknownn/aiproject/classes/GeneticApplier.java:290-291 | the two tournaments take the next four draws; each parent is the first of least fitness of its two drawn entrants |
| Genetic.GeneticApplier.CrossParents | app/src/main/java/com/unknownn/aiproject/classes/GeneticApplier.java:293 | applyCrossover with the next two draws: each child keeps the crossover's promise over the drawn segment (the other parent's cells on the segment, chain ends elsewhere), which fixes it, and both arrange the same cells |
| Genetic.GeneticApplier.CrossAndMutate | app/src/main/java/com/unknownn/aiproject/classes/GeneticApplier.java:293-298 | the pair is the two children the crossover determines (segment copied, chain ends elsewhere), each unchanged or with two distinct cells swapped, and both arrange the parents' cells |
| Genetic.GeneticApplier.BreedPair | app/src/main/java/com/unknownn/aiproject/classes/GeneticApplier.java:288-298 | one round from the stream: the tournament indices are the next four draws modulo the population size; each parent is the first of least fitness of its two entrants; the segment comes from the next two draws; the children are the ones the crossover determines over it (segment copied from the other parent, chain ends elsewhere), each mutated or left as is; both stay arrangements of the blanks |
| Genetic.GeneticApplier.BreedRound | app/src/main/java/com/unknownn/aiproject/classes/GeneticApplier.java:288-298 | one pass of the inner loop appends the pair one more round breeds, so the offspring stay bred round by round from the initial population |
| Genetic.GeneticApplier.Breed | app/src/main/java/com/unknownn/aiproject/classes/GeneticApplier.java:286-299 | ten offspring that are, pair by pair and in order, what successive rounds breed from the initial population, all arrangements of the blanks |
| Genetic.GeneticApplier.BestOf | app/src/main/java/com/unknownn/aiproject/classes/GeneticApplier.java:280-281 | the best is the first chromosome of least fitness in the population, and its value is its fitness, at most every member's |
| Genetic.GeneticApplier.Generation | app/src/main/java/com/unknownn/aiproject/classes/GeneticApplier.java:286-308 | the offspring is bred from the initial population; its first least member replaces the kept chromosome exactly when its fitness is strictly higher, so the kept value never falls and stays put when it does not rise |
| Genetic.GeneticApplier.ReportIteration | app/src/main/java/com/unknownn/aiproject/classes/GeneticApplier.java:310-311 | iteration it appends the report (100·it)/NO_OF_IT |
| Genetic.GeneticApplier.Generations | app/src/main/java/com/unknownn/aiproject/classes/GeneticApplier.java:283-312 | from the given start, NO_OF_IT generations each bred from the initial population form a chain of kept chromosomes and values, the last of which is returned, and the reports 1..100 are appended |
| Genetic.GeneticApplier.MainLoop | app/src/main/java/com/unknownn/aiproject/classes/GeneticApplier.java:277-312 | the run starts with the first least chromosome of the initial population and its fitness, then takes NO_OF_IT generations, each adopting by the strictly-higher rule; the chromosome returned is the last one kept |
| Genetic.GeneticApplier.Evolve | app/src/main/java/com/unknownn/aiproject/classes/GeneticApplier.java:277-318 | the run is the loop from the initial population (see MainLoop); the chromosome it keeps last is stored, and its first blue cell, a blank cell that always exists, is played and removed from the stored copy |
| Genetic.GeneticApplier.PlayStored | app/src/main/java/com/unknownn/aiproject/classes/GeneticApplier.java:257-275 | reports 100, and plays the stored solution's first blue cell, removing it from the stored copy, or plays nothing when it has no blue cell; any cell played is blank |
| Genetic.GeneticApplier.PlayEvolved | app/src/main/java/com/unknownn/aiproject/classes/GeneticApplier.java:277-328 | with fewer than ten blanks there is no run and no move, and the stored solution and the progress stay as they were; otherwise the run is an evolution of a fresh population, and the move is the first blue cell of the chromosome the run keeps last, which is stored |
| Genetic.GeneticApplier.StoreAndChoose | app/src/main/java/com/unknownn/aiproject/classes/GeneticApplier.java:314-328 | the given chromosome becomes the stored solution; its first blue cell always exists, is blank and is played, and is removed from the stored copy |
| Genetic.GeneticApplier.Respond | app/src/main/java/com/unknownn/aiproject/classes/GeneticApplier.java:257-328 | on the installed board: a stored solution still winnable after pruning reports 100 and is replayed through its first blue cell; otherwise a move is played exactly when at least ten blanks remain, and it is the first blue cell of the chromosome an evolution keeps last, which is stored |
| Genetic.GeneticApplier.Predict | app/src/main/java/com/unknownn/aiproject/classes/GeneticApplier.java:252-329 | takes N and the board; a stored solution that is still winnable after pruning is replayed through its first blue cell; otherwise either nothing is played (fewer than ten blanks, the pruned solution stays stored) or the move and the stored solution come from an evolution of a fresh population |
| Fuzzy.Trapezoid | app/src/main/java/com/unknownn/aiproject/classes/FuzzyApplier.java:17-46 | the three memberships lie in [0, 1] and sum to 1 |
| Fuzzy.CheckNoOfEmptyCell | app/src/main/java/com/unknownn/aiproject/classes/FuzzyApplier.java:17-46 | the low, medium and high memberships at 0.3N/0.4N/0.6N/0.7N form a partition of 1 |
| Fuzzy.CheckAlphaBetaTime | app/src/main/java/com/unknownn/aiproject/classes/FuzzyApplier.java:48-78 | the short, moderate and long memberships at 5/7/15/20 form a partition of 1 |
| Fuzzy.EmptyCellPlateaus | app/src/main/java/com/unknownn/aiproject/classes/FuzzyApplier.java:17-46 | below 0.3N the cells are fully low, between 0.4N and 0.6N fully medium, above 0.7N fully high |
| Fuzzy.TimePlateaus | app/src/main/java/com/unknownn/aiproject/classes/FuzzyApplier.java:48-78 | up to 5 the time is fully short, 7..15 fully moderate, from 20 fully long |
| Fuzzy.Infer | app/src/main/java/com/unknownn/aiproject/classes/FuzzyApplier.java:80-97 | the strengths lie in [0, 1]; alpha-beta is bounded by each input's lower two memberships, and genetic is at least "many empty cells" |
| Fuzzy.NeverBothZero | app/src/main/java/com/unknownn/aiproject/classes/FuzzyApplier.java:90-96 | for partitioned inputs at least one rule strength is positive |
| Fuzzy.Sums | app/src/main/java/com/unknownn/aiproject/classes/FuzzyApplier.java:99-115 | closed forms of the centroid's numerator and denominator over 0..100 |
| Fuzzy.CentroidMeaning | app/src/main/java/com/unknownn/aiproject/classes/FuzzyApplier.java:99-115 | the centroid is defined, lies in [0, 100], is below 50 exactly when alpha-beta is stronger, and equals 50 exactly for equal strengths |
| Fuzzy.DeFuzzyFy | app/src/main/java/com/unknownn/aiproject/classes/FuzzyApplier.java:99-115 | the loop computes the centroid (none for a zero denominator, where Java yields NaN) |
| Fuzzy.CalcValueIgnoresPercent | app/src/main/java/com/unknownn/aiproject/classes/FuzzyApplier.java:117-122 | calcValue returns ALPHA_BETA_PRUNING whatever the percentage |
| Fuzzy.PercentDefined | app/src/main/java/com/unknownn/aiproject/classes/FuzzyApplier.java:124-132 | the percentage that predictAlgo computes is always defined and lies in [0, 100] |
| Fuzzy.PredictAlgo | app/src/main/java/com/unknownn/aiproject/classes/FuzzyApplier.java:124-132 | the percentage is the centroid of the inferred strengths, and the choice is ALPHA_BETA_PRUNING |
| Helper.CharOf | app/src/main/java/com/unknownn/aiproject/classes/Helper.java:16-27 | RED, BLUE and BLANK are written as R, B and L, one letter each |
| Helper.EncodeAt | app/src/main/java/com/unknownn/aiproject/classes/Helper.java:16-27 | the string has N·N letters, and letter x·N+y names cell (x, y) |
| Helper.Decode | app/src/main/java/com/unknownn/aiproject/classes/Helper.java:16-27 | reading a string of N·N letters gives an N×N board |
| Helper.DecodeEncode | app/src/main/java/com/unknownn/aiproject/classes/Helper.java:16-27 | decoding the written board gives the board back |
| Helper.EncodeInjective | app/src/main/java/com/unknownn/aiproject/classes/Helper.java:16-27 | different boards give different strings |
| Helper.ConvertBoardToString | app/src/main/java/com/unknownn/aiproject/classes/Helper.java:16-27 | the nested loops produce the board's string |
| Game.Toggled | app/src/main/java/com/unknownn/aiproject/classes/GameBoard.java:540-550 | toggling always gives the other algorithm |
| Game.ToggledTwice | app/src/main/java/com/unknownn/aiproject/classes/GameBoard.java:540-550 | toggling twice restores the algorithm |
| Game.TimeAverage | app/src/main/java/com/unknownn/aiproject/classes/GameBoard.java:694 | the 32-bit average stays within half the int range; without overflow it is (prev + dif/1000)/2, between the two |
| Game.TimeAverageSettles | app/src/main/java/com/unknownn/aiproject/classes/GameBoard.java:694 | a search taking exactly prevTimeTaken seconds leaves the average unchanged |
| Game.GameBoard.constructor | app/src/main/java/com/unknownn/aiproject/classes/GameBoard.java:234-317 | an N×N grid of blank cell states with empty scores and nothing selected; red to move first, alpha-beta, no fixed algorithm, 30 seconds |
| Game.GameBoard.GetCurrentBoard | app/src/main/java/com/unknownn/aiproject/classes/GameBoard.java:633-641 | a fresh N×N array holding each cell state's colour, transposed |
| Game.GameBoard.CountEmptyCell | app/src/main/java/com/unknownn/aiproject/classes/GameBoard.java:643-651 | the count is the number of blank cells, at most N·N |
| Game.GameBoard.ContinueProcessing | app/src/main/java/com/unknownn/aiproject/classes/GameBoard.java:194-232 | on red's turn a blank cell becomes RED and the turn passes to blue; otherwise nothing changes; isTheFirstMove is untouched, because the branches that change it cannot run with red to move |
| Game.GameBoard.BoardAfterMove | app/src/main/java/com/unknownn/aiproject/classes/GameBoard.java:194-232 | after red's move the board is the old board with RED placed at the clicked cell |
| Game.GameBoard.Restart | app/src/main/java/com/unknownn/aiproject/classes/GameBoard.java:514-531 | every cell is blank with an empty score, nothing is selected, red moves first, and N·N cells are empty |
| Game.GameBoard.SwapPredictionAlgo | app/src/main/java/com/unknownn/aiproject/classes/GameBoard.java:540-550 | during blue's turn only a request from the bot toggles the algorithm; otherwise it always toggles |
| Game.GameBoard.FixPredictionAlgo | app/src/main/java/com/unknownn/aiproject/classes/GameBoard.java:503-507 | the algorithm is fixed and also made current |
| Game.GameBoard.ChooseAlgorithm | app/src/main/java/com/unknownn/aiproject/classes/GameBoard.java:670-681 | a requested algorithm wins, then a fixed one, and otherwise fuzzy prediction gives alpha-beta |
| Game.GameBoard.RecordTimeTaken | app/src/main/java/com/unknownn/aiproject/classes/GameBoard.java:694 | prevTimeTaken becomes the 32-bit average of the old value and the seconds taken |
| Game.AllBlankCount | app/src/main/java/com/unknownn/aiproject/classes/GameBoard.java:514-531 | an all-blank N×N board has N·N blank cells |
| Game.MoveTakesOneBlank | app/src/main/java/com/unknownn/aiproject/classes/GameBoard.java:194-232 | placing a stone on a blank cell removes exactly one blank |

## Left out

- User interface: drawing, touch handling and hexagon geometry (`Hexagon`, `MyTextView`, `MyConfuseBar`) are not part of this model. Nor are sounds, animation, `MainActivity` and `HomeScreen`.
  - Listener messages and errors are not modelled, except progress reports, which are the `progress` sequence.
- Concurrency: threads, executors, handlers and timers are not modelled.
  - The alpha-beta root pass runs sequentially.
  - The time-limit flag `stoppedByTLE` is state that the caller sets. It does not change during a search.
- Clocks: the elapsed time of a search is the parameter `dif` of `RecordTimeTaken`.
- `getInstance` singletons: the model builds plain objects.
- Floating point: the fuzzy controller uses real arithmetic, not IEEE doubles. Java's NaN for a zero denominator is `None`.
- Randomness: `java.util.Random` is an arbitrary stream of draws.
  - The crossover's own `new Random()` takes its two draws from the same stream.
  - Genetic.GeneticApplier.MutateChildren requires the stream to eventually yield a different index (`Varies`). With an arbitrary stream, the retry loop might otherwise never end.
- Crossover.ApplyCrossover requires parents whose cells are distinct and the same cells in a different order. Every caller passes such parents, and the model does not describe crossover of other lists.
- Calculator.GetGameWinner and Calculator.BoardScoreMeaning state who wins only for N ≠ 100. When N is 100, the early exit `pos == N` of `calcBoardScore` collides with its sentinel value.
- Calculator.ConnectedToEndBy: the walk along the parent map never takes a step, so its path length is always 0 and the score is 0 or -N.
- AlphaBeta.AlphaBetaApplier.ReportProgress does not model 32-bit overflow of `100 * botProgress`. The progress count is at most N·N.
- Null entries of the Java arrays are not modelled. The grid of cell states holds `CellState?`, which is non-null under `Valid()`.
- The parts of `GameBoard` that only drive the screen or the bot threads are not part of this model:
  - `processClick`, `checkForGameOver`, the bot's move callbacks;
  - the score and overlay reset before a prediction (GameBoard.java:660-665).
- Game.GameBoard.ContinueProcessing leaves out the on-screen messages, animation and sound of a move.
