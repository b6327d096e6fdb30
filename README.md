# Reversi rules engine and MCTS tree bookkeeping, in Dafny

This project models `reversi.go`, the Othello/Reversi engine of a Monte Carlo
tree search agent, and proves properties of the model. It has two parts.

- **The rules engine.** This is an 8x8 grid of 0 (empty), 1 (black) and -1
  (white). It covers:
  - the legality test of one direction (`checkValidDir`), of one cell
    (`checkValid`), and of the whole frontier (`getAllValid`);
  - the frontier of empty cells next to a piece (`getNeighbour`,
    `initNeighbours`);
  - piece counting (`getScores`);
  - Board set-up (`Setup`, `SetGame`, `newGame`);
  - `Move`: flipping, scores, the frontier update, and the pass/end-of-game
    state machine;
  - the small helpers `posInSlice` and `PrintPrettifyNotation`.
- **The MCTS tree bookkeeping.** This covers:
  - `expandNode`: one child per legal move, each holding its own copy of the
    board;
  - `backProp`: crediting a playout result along the parent links to the root;
  - the index choice of `selectChild` over given scores;
  - the tally of `Rollout` over playouts whose random choices come from an
    oracle.

Files and modules:

- `rules.dfy` (`ReversiRules`): positions, the grid, and rays. It also holds
  the specification functions for:
  - the legality tests (`RunLen`, `ValidDir`, `Legal`, `ValidMoves`);
  - the frontier (`EmptyNeighbours`, `FrontierOf`);
  - counting (`Count`, `FilledUpTo`, `EmptyUpTo`);
  - the flip loops of `Move` (`FlipRun`, `FlipDirs`, `FlipTotal`, `MoveGrid`).

  Alongside them are the lemmas that connect each of these to an independent
  reading, for example `Brackets` for a capture and `Captured` for the flip
  region.
- `state.dfy` (`ReversiState`) defines `BoardState`, the whole Board as a
  value. It also holds:
  - `SetupState`, what `Setup` derives from a grid;
  - `MoveSpec`, what `Move` does;
  - the invariant `Inv` that both keep;
  - the lemmas about a legal move: exact flip region, score conservation,
    frontier, and turn/end-of-game resolution.
- `board.dfy` (`ReversiBoard`) defines class `Board`. It has the Go struct's
  fields, and its methods update them in place with the source's loops. Each
  method is proved against the functions above. `SetGame` and `NewGame` build
  Boards.
- `notation.dfy` (`ReversiNotation`) models `PrintPrettifyNotation` with
  `strconv.Itoa`. A parser proves that the notation loses nothing.
- `mcts.dfy` (`Mcts`) defines:
  - class `Node`, with `ExpandNode`, `Credit` and `SelectChild`;
  - `BackProp`, over a ghost ancestor path;
  - the playout `SimRand`, `Playout` and `Rollout`.

Modelling decisions:

- **Board as a value.** A Go `Board` is a value type: copying it copies the
  `[8][8]int` array. `BoardState` is therefore a datatype, and `Board.Value()`
  reads a `Board` object as one. A child node's `state` is a `BoardState`
  value, so it cannot alias its parent's.
- **Integers.** They are unbounded. Scores stay between 0 and 64, so no Go
  `int` overflow can occur.
- **Node mobility.** It is an integer (see Left out).
- **Move's flips, direction by direction.** Each direction is judged on the
  grid left by the earlier directions, exactly as in the source (`FlipDirs`).
  `FlipDirsCell` and `FlipTotalRuns` then prove that this has the same effect
  as judging every direction on the grid before the move.
- **checkValidDir's walk.** `Walk` is the source's loop written as a recursive
  function, firstShift flag included. `Board.CheckValidDir` follows it step by
  step. `WalkValidDir` proves that it decides `ValidDir`, the run-length
  reading of a capture.
- **The frontier invariant.** `FrontierWeak` says the list has no repeats and
  that its empty cells are exactly the frontier. It is weaker than "the list
  is exactly the frontier" (`FrontierExact`). This is because of where
  reversi.go:363 sits: the assignment `X.neighbours = newNeighbourSet` is
  inside the loop. When the placed cell is the only candidate, the old list is
  kept, and it then holds an occupied cell. `MoveFrontier` states both cases.
- **The backProp loop.** Go's `for { ...; if n.parent == nil { break }; n = n.parent }`
  is written as `while cur != null`. It visits the same nodes in the same
  order. The nodes visited are named by a ghost `path`, and `AncestorPath`
  says that the path follows the parent links from `n` to a root.
- **Notation fields.** `PrintPrettifyNotation` fills field `i` of its
  `strPosition` with the column letter and field `j` with the row numeral
  (reversi.go:66), although the field comments at reversi.go:20-21 call `i`
  the row. The model follows the code, so `i + j` reads "A1".
- **The opening.** `StartFacts` and `NewGame` state newGame's Board: black
  to move, two pieces each, and exactly four legal moves. `OpeningPlayout`
  shows that every random game from it ends.
- **Randomness.** `rand.Intn(len(validSpace))` becomes `draw(step) % |validSpace|`
  for an oracle `draw: nat -> nat`. `Rollout`'s i-th playout uses `choose(i)`.

## Model

| member | source | states |
|---|---|---|
| ReversiRules.InRange | reversi.go:111-124 | Definition: a position is on the board when both coordinates lie in 0..7 (inRange, X.length = 8). |
| ReversiRules.SetCell | reversi.go:331 | Writing v into cell q gives a grid whose q cell is v and whose other cells are unchanged. |
| ReversiRules.Ray | reversi.go:211-267 | Definition: the cell k steps from p along direction d. |
| ReversiRules.RayStep | reversi.go:333-334 | One more step along a direction adds the direction to the cell: the flip loop's `nextPiece.i += dir.i` and `nextPiece.j += dir.j`, and the same step `space = Position{space.i + iDir, space.j + jDir}` in checkValidDir at reversi.go:228. |
| ReversiRules.WalkAt | reversi.go:228-261 | One iteration of checkValidDir's loop: the walk stops with false off the board or on an empty cell, stops on the turn's colour with true exactly when firstShift is already false, and on any other piece is still inside the board and continues from the next cell, clearing firstShift when that piece is the opponent's. |
| ReversiRules.RaysDisjoint | reversi.go:25-34 | Two rays from one cell, along directions of the list, meet only when the direction and the distance are the same. |
| ReversiRules.RayInjective | reversi.go:25-34 | Different distances along one direction are different cells. |
| ReversiRules.DirectionsDistinct | reversi.go:25-34 | The eight directions are pairwise different. |
| ReversiRules.RayBound | reversi.go:111-124 | A ray from an on-board cell is on the board only at distances below 8, so every walk of the source ends. |
| ReversiRules.RunLen | reversi.go:211-267 | Definition: the number of consecutive -turn cells on the ray from p, from a given distance on; the cells checkValidDir walks over. |
| ReversiRules.ValidDir | reversi.go:211-267 | Definition of checkValidDir: p is empty, the run is non-empty, and the cell after it is on the board and holds turn. Its partner is ValidDirIff. |
| ReversiRules.Legal | reversi.go:269-281 | Definition of checkValid: some direction of the list is valid. |
| ReversiRules.RunContinues | reversi.go:258-260 | One step of checkValidDir's walk over an opponent cell: the run counted so far grows by one. |
| ReversiRules.RunStops | reversi.go:228-252 | When the walk stops (off the board, empty, or mover cell), the direction is valid exactly when at least one opponent cell came first and the stop cell is the mover's. |
| ReversiRules.ValidDirIff | reversi.go:211-267 | A direction is valid if and only if p is empty and some n >= 1 has cells 1..n of the ray on the board holding -turn, and cell n+1 on the board holding turn. |
| ReversiRules.ValidDirBrackets | reversi.go:211-267 | A valid direction brackets exactly RunLen opponent cells. |
| ReversiRules.BracketsValidDir | reversi.go:211-267 | An empty cell with a bracketed run makes the direction valid. |
| ReversiRules.ValidDirNeedsPlayer | reversi.go:211-267 | On a grid of 0, 1 and -1, a turn that is neither 1 nor -1 never validates a direction (NoValidDirNonPlayer is the same fact as a proof helper for WalkValidDir). |
| ReversiRules.Walk | reversi.go:211-267 | Definition: checkValidDir's walk as the code writes it: step along the ray, stop off the board, on an empty cell, or on a mover cell (valid only after the first step), and go on over opponent cells clearing firstShift. |
| ReversiRules.WalkRun | reversi.go:225-262 | For a player, after m opponent cells the walk gives ValidDir's verdict. |
| ReversiRules.WalkOver | reversi.go:258-260 | Stepping over an opponent cell clears firstShift and moves the walk one cell on. |
| ReversiRules.WalkStops | reversi.go:228-253 | At the first cell that is not an opponent's, the walk gives ValidDir's verdict: valid exactly when the cell is the mover's and a run came before it. |
| ReversiRules.WalkNonPlayer | reversi.go:225-262 | With a turn that is neither 1 nor -1, the walk never accepts on a grid of 0, 1 and -1. |
| ReversiRules.WalkValidDir | reversi.go:211-267 | From an empty cell, the walk decides exactly ValidDir, for every turn. |
| ReversiRules.LegalNeedsPlayer | reversi.go:269-281 | The same for checkValid: only a player can have a legal cell. |
| ReversiRules.RunLenCells | reversi.go:258-260 | The opponent run that checkValidDir walks over is made of on-board cells holding -turn. |
| ReversiRules.RunLenEnd | reversi.go:228-252 | The run ends at the first cell that is off the board or not an opponent cell. |
| ReversiRules.RunLenExact | reversi.go:211-267 | A run of opponent cells that is not continued is exactly what RunLen counts. |
| ReversiRules.RunLenAgree | reversi.go:211-267 | The run from a given distance on depends only on p and the cells of its ray. |
| ReversiRules.ValidDirAgree | reversi.go:211-267 | The verdict of a direction depends only on p and the cells of its ray. |
| ReversiRules.PosInSlice | reversi.go:69-77 | posInSlice is true if and only if the position is an element of the list. |
| ReversiRules.EmptyNeighbours | reversi.go:126-138 | Definition of getNeighbour: the empty on-board cells one step away, in direction order. Its partner is EmptyNeighboursElems. |
| ReversiRules.FrontierOf | reversi.go:140-157 | Definition of initNeighbours: the empty neighbours of the filled cells, each added unless already present. Its partner is FrontierOfElems. |
| ReversiRules.NeighboursUpTo | reversi.go:126-138 | Definition: getNeighbour's list after the first k directions. |
| ReversiRules.AddNew | reversi.go:147-153 | Definition: the "append unless posInSlice" loop, the accumulator followed by the new elements in order of first occurrence. |
| ReversiRules.NeighboursUpToElems | reversi.go:126-138 | After k directions, getNeighbour's list holds exactly the on-board empty cells one step away along those directions, with no repeats. |
| ReversiRules.AdjacentSteps | reversi.go:25-34 | Being adjacent (king-move distance one) is the same as being one step away along one of the eight directions. |
| ReversiRules.EmptyNeighboursElems | reversi.go:126-138 | getNeighbour returns exactly the on-board empty cells adjacent to the piece, with no repeats. |
| ReversiRules.AddNewElems | reversi.go:147-153 | The "append unless posInSlice" loop yields the union of both lists, and keeps an accumulator without repeats free of repeats. |
| ReversiRules.FrontierOfElems | reversi.go:140-157 | initNeighbours returns exactly the cells that are an empty neighbour of some filled cell, with no repeats. |
| ReversiRules.RowMajorIndex | reversi.go:186-194 | The row-major numbering of the nested i, j loops is a bijection between the board and 0..63 (one direction). |
| ReversiRules.IndexRowMajor | reversi.go:186-194 | The same bijection, the other direction. |
| ReversiRules.FilledUpTo | reversi.go:186-194 | Definition: the non-empty cells among the first k of the row-major scan, in scan order. |
| ReversiRules.EmptyUpTo | reversi.go:186-194 | Definition: the empty cells among the first k of the row-major scan, in scan order. |
| ReversiRules.CountUpTo | reversi.go:159-175 | Definition: the number of cells holding v among the first k of the row-major scan. |
| ReversiRules.Count | reversi.go:159-175 | Definition of getScores for one colour: the number of cells holding v. |
| ReversiRules.FilledUpToElems | reversi.go:186-194 | After k cells of the scan, filled holds exactly the non-empty cells scanned so far and empty the empty ones, neither with repeats, together k of them. |
| ReversiRules.CountUpToFilled | reversi.go:159-175 | On a grid of 0, 1 and -1, the number of filled cells is the black count plus the white count. |
| ReversiRules.CountUpToSetCell | reversi.go:159-175 | Changing one cell changes a partial count by one at most, exactly as the old and the new value say. |
| ReversiRules.CountSetCell | reversi.go:159-175 | The same for the full count of a value. |
| ReversiRules.ValidMoves | reversi.go:283-292 | Definition of getAllValid: the cells of the neighbour list that are legal, in list order. Its partners are ValidMovesElems and ValidMovesComplete. |
| ReversiRules.ValidMovesElems | reversi.go:283-292 | getAllValid keeps exactly the list cells that are legal, in list order, and without repeats when the list has none. |
| ReversiRules.LegalIsFrontier | reversi.go:283-292 | Every legal cell is on the frontier, so scanning only the neighbour list loses no legal move. |
| ReversiRules.FlipRun | reversi.go:320-335 | Definition: the grid after the first m cells of the run along one direction are set to turn, as Move's inner loop does. |
| ReversiRules.RunsUpTo | reversi.go:315-337 | Definition: the total length of the runs of the first k directions, judged on the grid before the move. |
| ReversiRules.DirStep | reversi.go:316-336 | Definition: one pass of Move's direction loop; when the direction is valid the run of opponent pieces is set to the turn's colour, and otherwise the grid is unchanged. |
| ReversiRules.DirCount | reversi.go:332 | Definition: what that pass adds to flippedCount, the run's length when the direction is valid and 0 otherwise. |
| ReversiRules.FlipDirs | reversi.go:315-337 | Definition: the grid after the first k directions, each judged and flipped on the grid the earlier ones left. |
| ReversiRules.FlipTotal | reversi.go:315-337 | Definition: flippedCount after the first k directions, judged the same way. |
| ReversiRules.MoveGrid | reversi.go:315-339 | Definition: the grid after all eight directions are flipped and the placed cell is set to turn. Its partner is MoveGridCells. |
| ReversiRules.InRunCell | reversi.go:315-337 | A captured cell is on the board, is not the placed cell, and holds an opponent piece. |
| ReversiRules.FlipRunCell | reversi.go:322-336 | After m flips along a direction, exactly the ray cells at distances 1..m hold turn, and every other cell is unchanged. |
| ReversiRules.FlipRunNext | reversi.go:322-336 | While flipping a valid direction, the next cell is on the board, and it holds turn exactly when the whole run has been flipped. |
| ReversiRules.FlipLoopStart | reversi.go:320 | Move's flip loop starts at the first cell of the ray with nothing flipped. |
| ReversiRules.FlipLoopStep | reversi.go:324-335 | One iteration of the flip loop flips one more run cell and steps the cursor, without running past the run. |
| ReversiRules.RunLenInRange | reversi.go:322-336 | The m-th cell of the run is on the board and holds -turn. |
| ReversiRules.FlipRunKeeps | reversi.go:322-336 | The first j flips leave the run's m-th cell alone when j < m: it still holds an opponent piece. |
| ReversiRules.CountCapture | reversi.go:331 | Turning one opponent cell into a mover cell moves one piece from the opponent's count to the mover's. |
| ReversiRules.FlipRunCountStep | reversi.go:331-332 | One flip adds one to the mover's count and removes one from the opponent's. |
| ReversiRules.FlipRunCount | reversi.go:322-336 | After m flips, the mover's count is up by m and the opponent's is down by m. |
| ReversiRules.FlipDirsAgree | reversi.go:315-337 | The runs of earlier directions touch neither p nor the ray of the next direction, so that direction is judged alike before and after them. |
| ReversiRules.CapturedUpToStep | reversi.go:315-337 | Being captured along the first k directions means being captured along the first k-1 or along the k-th. |
| ReversiRules.FlipDirsCell | reversi.go:315-337 | The direction loop, judged on the partly flipped grid, sets exactly the cells captured on the original grid to turn. |
| ReversiRules.FlipTotalRuns | reversi.go:315-337 | flippedCount, summed over directions judged on the partly flipped grid, is the total length of the runs judged on the original grid. |
| ReversiRules.FlipDirsValues | reversi.go:315-337 | Flipping keeps every cell at 0, 1 or -1. |
| ReversiRules.FlipDirsLoopStep | reversi.go:315-337 | One pass of the direction loop advances its state: the grid, flippedCount and the cell values. |
| ReversiRules.FlipDirsCount | reversi.go:315-337 | The direction loop raises the mover's count by flippedCount and lowers the opponent's by flippedCount. |
| ReversiRules.MoveGridCells | reversi.go:315-339 | After a move, exactly the placed cell and the captured cells hold turn, nothing else changes, and every captured cell held an opponent piece. |
| ReversiRules.MoveGridCounts | reversi.go:315-349 | On an empty cell, a move adds flippedCount+1 mover pieces and removes flippedCount opponent pieces. |
| ReversiState.Inv | reversi.go:79-90 | Definition of the Board invariant: cells 0, 1 or -1; a neighbour list whose empty cells are exactly the frontier, without repeats; validSpace is getAllValid of it; the scores are the piece counts; and a decided game has no move. |
| ReversiState.SetupState | reversi.go:177-209 | Definition of Setup: the Board a grid and a turn determine, with winner 0. Its partner is SetupFacts. |
| ReversiState.Winner | reversi.go:376-385 | The winner is 1 when black leads, -1 when white leads, and 99 on a tie. Each holds if and only if its case does. |
| ReversiState.FrontierOfInRange | reversi.go:140-157 | The lists initNeighbours builds hold only on-board cells. |
| ReversiState.SetupLists | reversi.go:186-194 | After Setup's scan, filled is exactly the non-empty cells and empty the empty ones, with no repeats, 64 in all. |
| ReversiState.SetupFrontier | reversi.go:197-198 | After Setup, neighbours is exactly the frontier: every empty cell next to a piece, nothing else. |
| ReversiState.SetupFacts | reversi.go:177-209 | Setup's Board keeps the invariant, and its neighbours are exactly the frontier. Its validSpace holds exactly the legal cells, its scores sum to the number of filled cells, and a non-player turn has no moves. |
| ReversiState.SetupInv | reversi.go:177-209 | Setup establishes the Board invariant (the first part of SetupFacts, on its own). |
| ReversiState.ValidMovesComplete | reversi.go:283-292 | Under the frontier invariant, getAllValid returns exactly the legal cells of the whole board, without repeats. |
| ReversiState.DropAndDedup | reversi.go:355-362 | Definition: the candidates other than the placed cell, each kept unless already present. |
| ReversiState.NewNeighbours | reversi.go:351-364 | Definition: that list, or the old list when it is empty (line 363). |
| ReversiState.DropAndDedupElems | reversi.go:355-362 | The neighbour-update loop yields the candidates other than the placed cell, each once. |
| ReversiState.FrontierStep | reversi.go:351-364 | The neighbour update of a move keeps the frontier invariant. The exact frontier is kept when the new list is non-empty, and when it is empty no frontier cell is left. |
| ReversiState.AdjacentSym | reversi.go:25-34 | Adjacency is symmetric. |
| ReversiState.Live | reversi.go:444-456 | Definition: an undecided game has a move, as simRand needs in order to index validSpace. |
| ReversiState.NewNeighboursInRange | reversi.go:351-364 | The updated neighbour list holds only on-board cells. |
| ReversiState.MoveSpec | reversi.go:307-389 | Definition of Move on a Board value: unchanged for a position outside validSpace, else Place followed by PassTurn. Its partners are MoveCells, MoveScores, MoveFrontier, MoveTurn, MoveNext and MovePreservesInv. |
| ReversiState.PassTurn | reversi.go:365-387 | Definition: the opponent moves next if they have a move, else the mover if they have one, else the winner is set from the scores. |
| ReversiState.Place | reversi.go:313-364 | The flip-place-update part of Move keeps the neighbour list on the board. |
| ReversiState.MoveCells | reversi.go:315-339 | On a legal move, exactly the placed cell and the captured runs become turn, and each captured cell was an opponent piece. |
| ReversiState.MoveScores | reversi.go:339-349 | On a legal move, the mover's score rises by flippedCount+1 and the opponent's falls by flippedCount. The scores keep equalling the piece counts, and their sum rises by exactly 1 and stays within 64. |
| ReversiState.MoveValues | reversi.go:315-339 | A legal move keeps the grid to 0, 1 and -1. |
| ReversiState.MoveFrontier | reversi.go:351-364 | After a legal move, the neighbour list is the old list plus the placed cell's empty neighbours, minus the placed cell, with no repeats. The old list is kept when that is empty (line 363). The frontier invariant holds either way. |
| ReversiState.MoveLegal | reversi.go:311-313 | A move in validSpace happens only while the game is undecided, and is flip-place-update followed by the turn resolution. |
| ReversiState.MoveShape | reversi.go:365-387 | The turn passes to the opponent when the opponent has a move, stays when only the mover has one, and otherwise validSpace is empty and the winner is decided by the scores. |
| ReversiState.PassTurnShape | reversi.go:365-387 | The pass step alone: grid, neighbours and scores are kept; the opponent takes the turn when they have a move, else the mover keeps it; the winner is set from the scores only when neither has a move. |
| ReversiState.HasMoveIff | reversi.go:283-292 | Under the frontier invariant, getAllValid is non-empty if and only if some cell of the board is legal. |
| ReversiState.MoveTurn | reversi.go:365-387 | The same resolution, stated over whether each side has a legal cell anywhere on the board. |
| ReversiState.MoveNext | reversi.go:365-387 | After a legal move, validSpace is exactly the legal cells for the new turn, the turn is a player, and an undecided game has a move. |
| ReversiState.MovePreservesInv | reversi.go:307-389 | Every Move, legal or not, keeps the Board invariant. A legal one leaves an undecided game with a move. |
| ReversiBoard.Paint | reversi.go:396-401 | Definition: the grid with the listed cells, one after another, set to v. |
| ReversiBoard.GameGrid | reversi.go:391-401 | Definition: SetGame's grid, black pieces painted first and white ones over them. |
| ReversiBoard.PaintCell | reversi.go:396-401 | After painting a list of cells with v, a listed cell holds v and any other cell is unchanged. |
| ReversiBoard.GameGridCells | reversi.go:391-401 | SetGame's grid holds white where listed white, else black where listed black, else empty. White overwrites black. |
| ReversiBoard.EmptyGrid | reversi.go:395 | Definition: the all-empty 8x8 grid, `Grid := [8][8]int{}` in SetGame and again at reversi.go:422 in newGame. |
| ReversiBoard.StartGrid | reversi.go:419-426 | Definition: the empty grid with white on (3,3) and (4,4) and black on (3,4) and (4,3), set in the source's order. |
| ReversiBoard.StartCell | reversi.go:419-426 | Definition: the opening table cell by cell: white on (3,3) and (4,4), black on (3,4) and (4,3), empty elsewhere. |
| ReversiBoard.StartGridCells | reversi.go:419-426 | The start grid holds white exactly on (3,3) and (4,4), black exactly on (3,4) and (4,3), and nothing elsewhere. So it holds only 0, 1 and -1. |
| ReversiBoard.EmptyGridCount | reversi.go:159-175 | An empty grid has no piece of either colour. |
| ReversiBoard.StartCounts | reversi.go:419-442 | In the opening each side has two pieces. |
| ReversiBoard.StartRunSingle | reversi.go:419-426 | On the opening grid, any run of white cells that black brackets is a single cell. |
| ReversiBoard.StartBracket | reversi.go:419-426 | On the opening grid, a cell that brackets one white cell is one of (2,3), (3,2), (4,5) and (5,4). |
| ReversiBoard.StartLegal | reversi.go:419-426 | On the opening grid, black can legally play a cell if and only if it is one of (2,3), (3,2), (4,5) and (5,4). |
| ReversiBoard.StartMoveLegal | reversi.go:419-426 | Each of (2,3), (3,2), (4,5) and (5,4) is legal for black on the opening grid: it brackets one white piece. |
| ReversiBoard.StartLegalMove | reversi.go:419-426 | No other cell is legal for black on the opening grid. |
| ReversiBoard.StartMovesOf | reversi.go:419-442 | A list holding exactly the legal cells of black on the opening grid holds exactly the four opening moves. |
| ReversiBoard.StartSetup | reversi.go:419-442 | Setup of the opening grid with black to move gives the invariant. validSpace holds exactly those four cells, once each, so the game can go on. |
| ReversiBoard.StartFacts | reversi.go:419-442 | newGame's Board: black to move, undecided, two pieces each, and validSpace exactly black's four opening moves. |
| ReversiBoard.Board.FromValue | reversi.go:535 | Copying a Board gives an object whose fields are exactly the copied value. |
| ReversiBoard.Board.GetNeighbour | reversi.go:126-138 | getNeighbour's loop returns the empty on-board cells next to piece, in direction order. |
| ReversiBoard.Board.InitNeighbours | reversi.go:140-157 | initNeighbours sets neighbours to the deduplicated union of the filled cells' empty neighbours. |
| ReversiBoard.Board.GetScores | reversi.go:159-175 | getScores returns the number of black and of white cells. |
| ReversiBoard.Board.FillLists | reversi.go:186-194 | The nested scan sets filled and empty to the non-empty and empty cells in row-major order. |
| ReversiBoard.Board.Setup | reversi.go:177-209 | Setup replaces every field with what the grid and turn determine, winner 0, and establishes the Board invariant. |
| ReversiBoard.Board.CheckValidDir | reversi.go:211-267 | The loop follows Walk step by step, and WalkValidDir ties Walk to ValidDir, so the method returns exactly ValidDir's verdict, which ValidDirIff proves equal to the bracket reading. |
| ReversiBoard.Board.CheckValid | reversi.go:269-281 | The direction loop returns whether some direction is valid. |
| ReversiBoard.Board.GetAllValid | reversi.go:283-292 | The filter keeps the legal cells of neighbours in order. |
| ReversiBoard.Board.FlipDirection | reversi.go:320-335 | On a valid direction, the flip loop flips exactly the opponent run and counts its length. |
| ReversiBoard.Board.FlipIfValid | reversi.go:316-337 | One pass of the direction loop flips the run when the direction is valid, and otherwise leaves the grid alone. |
| ReversiBoard.Board.FlipAll | reversi.go:314-337 | The direction loop ends with FlipDirs's grid and FlipTotal's flippedCount. |
| ReversiBoard.Board.UpdateNeighbours | reversi.go:351-364 | The neighbour loop sets neighbours to the deduplicated candidates without the placed cell, or keeps the old list when there are none. Nothing else changes. |
| ReversiBoard.Board.ResolveTurn | reversi.go:365-387 | The pass/end-of-game code changes turn, validSpace and winner as PassTurn says, and nothing else. |
| ReversiBoard.Board.PlacePiece | reversi.go:314-364 | Flipping, placing, scoring and updating neighbours produce the Board that Place describes. |
| ReversiBoard.Board.Move | reversi.go:307-389 | Move changes the Board to MoveSpec of the old value and keeps the invariant. A position not in validSpace changes no field. |
| ReversiBoard.SetGame | reversi.go:391-417 | SetGame returns a new Board that is Setup of the painted grid and the given turn, satisfying the invariant. |
| ReversiBoard.NewGame | reversi.go:419-442 | newGame returns a new Board that is Setup of the start grid with black to move, satisfying the invariant. It is undecided with two pieces each, and its validSpace is exactly (2,3), (3,2), (4,5) and (5,4), so the game can go on. |
| ReversiNotation.Digits | reversi.go:66 | The decimal digits of a number are all digits, and there is no leading zero. |
| ReversiNotation.Itoa | reversi.go:66 | strconv.Itoa writes a leading '-' exactly for a negative number. |
| ReversiNotation.DigitsValueOfDigits | reversi.go:66 | Reading back the decimal digits of n gives n. |
| ReversiNotation.ItoaRoundTrip | reversi.go:66 | Itoa's numeral reads back as the number. |
| ReversiNotation.ItoaInjective | reversi.go:66 | Different numbers get different numerals. |
| ReversiNotation.PrettifyNotation | reversi.go:59-67 | Field i of the result is the column letter 'A'+j, and field j is Itoa of the row plus one. |
| ReversiNotation.ParseNotation | reversi.go:59-67 | Reading the notation back: the column is the letter in field i, and the row is the number in field j minus one. |
| ReversiNotation.NotationRoundTrip | reversi.go:59-67 | Parsing the notation of any position with a column 0..7 gives back that position. |
| ReversiNotation.NotationOnBoard | reversi.go:59-67 | On the board the two fields read together are the letter A..H and one digit 1..8: (0,0) is "A1" and (0,7) is "H1". |
| Mcts.Playout | reversi.go:444-456 | A playout ends with the game decided (1, -1 or 99) and no moves left. |
| Mcts.PlayoutMoves | reversi.go:446-453 | A decided game is returned as it is. An undecided one plays the drawn legal move, which keeps the invariant, and goes on from there. |
| Mcts.PlayoutFills | reversi.go:444-456 | A playout never removes pieces and never exceeds 64, which is why it ends. |
| Mcts.ScoreSumBound | reversi.go:159-175 | The scores of a Board sum to at most 64. |
| Mcts.OpeningPlayout | reversi.go:419-456 | A random game from newGame's opening always ends, whatever the draws: decided (1, -1 or 99), no move left, and 4 to 64 pieces on the board. |
| Mcts.SimRand | reversi.go:444-456 | simRand's loop returns the playout of the oracle's draws. |
| Mcts.WinnerOf | reversi.go:494-500 | Definition: the winner of the playout of a game with the given draws. |
| Mcts.Outcomes | reversi.go:493-500 | Definition: the winners of the first n playouts of Rollout, the i-th using the i-th draw oracle. |
| Mcts.CountOf | reversi.go:495-500 | Definition: the number of outcomes with a given value; its contract gives only the bound by the number of outcomes. The counting facts are in CountOfAppend and CountOfThree. |
| Mcts.Prefix | reversi.go:493 | Definition: the first n values of a sequence given by index; its contract gives only the length. What its elements are is in PrefixAt and OutcomesAt. |
| Mcts.Rollout | reversi.go:485-506 | wins counts the playouts won by the player to move, and draws those ending 99. loss is nSim - wins - draws, and nSim <= 0 gives zero wins and draws. |
| Mcts.CountOfAppend | reversi.go:495-500 | One more outcome adds one to its own value's count and nothing to the others. |
| Mcts.OutcomesNext | reversi.go:493-500 | One more playout appends its winner to the outcomes. |
| Mcts.PrefixAt | reversi.go:493-500 | Element k of the first n values is the k-th value. |
| Mcts.OutcomesAt | reversi.go:494 | The i-th outcome is the winner of the i-th playout. |
| Mcts.CountOfThree | reversi.go:493-503 | When every outcome is one of three different values, their counts sum to the number of outcomes. |
| Mcts.OutcomesDecided | reversi.go:444-456 | Every playout outcome is 1, -1 or 99. |
| Mcts.RolloutLoss | reversi.go:503 | loss is exactly the number of playouts won by the opponent, so wins + loss + draws = nSim and loss >= 0. |
| Mcts.DistinctSnoc | reversi.go:538-546 | Appending a fresh node keeps a node list free of repeats. |
| Mcts.Node.constructor | reversi.go:538-545 | A new child has the given position, state, parent and depth, no children, and zero played, wins and mobility. |
| Mcts.Node.NewChild | reversi.go:532-545 | A child is a fresh node at depth+1 under this node. Its state is its own copy of the parent's board with the move applied. |
| Mcts.Node.ExpandNode | reversi.go:529-549 | children becomes len(validSpace) fresh, distinct nodes. Child i has position validSpace[i], the parent's board with that move applied, depth+1, this parent and zero counters. The parent's state is not touched. |
| Mcts.Node.NewChildren | reversi.go:531-547 | The loop that builds expandNode's children, with the same promise. |
| Mcts.Node.Credit | reversi.go:656-663 | One node's update: played grows by played. A node on the originating side gains wins and mobility, any other gains loss. |
| Mcts.Node.ChildrenPlayed | reversi.go:635 | The played counters of the children, in order. |
| Mcts.Node.SelectChild | reversi.go:558-647 | The child returned is the one at SelectIndex of the scores and the played counters. |
| Mcts.MaxScan | reversi.go:620-627 | Definition: the "max" branch's scan over the first k scores, from -9999 with a strict >. Its partner is MaxScanFirstMax. |
| Mcts.MinScan | reversi.go:629-638 | Definition: the "min" branch's scan over the first k scores of children with played > 0, from 9999 with a strict <. Its partner is MinScanFirstMin. |
| Mcts.SelectIndex | reversi.go:563-642 | The chosen index is within the children. |
| Mcts.MaxScanBound | reversi.go:575-627 | The "max" scan's index stays below the number of children scanned. |
| Mcts.MinScanBound | reversi.go:575-638 | The "min" scan's index stays below the number of children scanned. |
| Mcts.MaxScanFirstMax | reversi.go:570-627 | The "max" scan from -9999 ends at the first index of a maximal score, or at 0 with -9999 when no score beats -9999. |
| Mcts.SelectMax | reversi.go:620-627 | "max" returns a maximal score, the first of equal maxima (strict >), or index 0 when no score beats -9999. |
| Mcts.MinScanFirstMin | reversi.go:573-638 | The "min" scan from 9999 ends at the first minimal score among children with played > 0 and score below 9999, or at 0 when there is none. |
| Mcts.SelectMin | reversi.go:629-638 | "min" returns the first minimal score among explored children (played > 0), or index 0 when none qualifies. |
| Mcts.SelectOther | reversi.go:563-642 | Any other selector string returns index 0. |
| Mcts.AncestorPathDistinct | reversi.go:649-669 | The parent chain from a node to the root visits each node once. |
| Mcts.ParentLink | reversi.go:665-667 | Each node of the chain has the next one as its parent (an instance of AncestorPath, for use in BackProp). |
| Mcts.AncestorPathOthers | reversi.go:649-669 | No other node of the chain is the i-th one, so updating it changes no other. |
| Mcts.ChainShift | reversi.go:665-667 | Two equal nodes of a parent chain stay equal t steps further up. |
| Mcts.BackProp | reversi.go:649-669 | Every node from n up to the root gains played. Those whose turn is n's gain wins, plus n's mobility, len(validSpace) computed once at the start. All others gain loss. |

## Left out

- `Search` (reversi.go:671-748) combines float UCT selection, random
  rollouts and the tree of linked nodes. It is not modelled. Its doubled `N`
  counter feeds only the float term.
- `UCT` and the score arithmetic of `selectChild` (reversi.go:551-619) are
  float64 `math.Sqrt`/`Log`/`Pow`. The scores are given as values of type
  `real`, and only the index choice is modelled. At reversi.go:621-622 and
  632-633 the composite score is overwritten with the plain UCT score, so in
  the code as written the inner, position and greed terms have no effect.
  Modelling the given score as that plain score is therefore faithful.
- Randomness and time in `simRand` and `Rollout`: the clock-seeded
  `rand.Intn` is an oracle parameter, and the elapsed `time.Duration` result
  is dropped.
- `simRandPlus` (reversi.go:458-482), the heuristic playout, is not modelled.
  The tree uses `simRand`.
- The printing in Move's invalid branch, and `Show`, `showAllValid`,
  `Simulator` and `RandomRandomPlay`, are output and benchmarks. They are not
  modelled.
- api.go, lambda.go, main.go and static/js/reversi-board.js are HTTP, Lambda
  and browser plumbing, and are not part of this model. The `GameState` type
  comes from outside the modelled file. Its pieces are taken as lists of
  positions.
- `Node.mobilityDenom` is never written by the modelled code, so it is not
  modelled.
- Node.mobility is a float64 in the source. It only ever gains small integer
  lengths, which float64 holds exactly, so it is modelled as `int`.
- The Board's `length` field is always 8 and is the constant `Size`.
- Panics become preconditions:
  - out-of-range indices in `SetGame` input (the positions must be on the
    board);
  - `PrintPrettifyNotation` on a column outside 0..7;
  - `selectChild` with no children;
  - `simRand` on an undecided game with no moves, which `Rollout` requires of
    its input when it plays at least once.
- Board.Move requires the Board invariant `Valid()`. Every Board built by
  `SetGame`, `newGame` or `Move` satisfies it, and the source has no other
  way to build one.
- `filled` and `empty` are set by `Setup` and never updated by `Move`, as in
  the source. No claim ties them to the grid after a move.
- Go slices appended in expandNode share no state the code later mutates.
  Aliasing between slices of copied Boards is not modelled: each copy is a
  value.
