# Hex stack merge — board and cascade model

This project models the game logic of a hexagonal stack-merging puzzle. The
board is a radius-2 hexagon of 19 cells in axial coordinates `(q, r)`. The
player drags a stack of one or two same-coloured tiles from a hand of three
onto an empty cell. The placed stack then absorbs from each of its six
neighbours the run of tiles at the top that has the placed stack's top
colour. Each tile moved scores 20 points. A stack that reaches 10 tiles
overflows: it is removed from the board and scores a bonus of 100. The hand
is refilled once all three slots are empty, and the game ends when the board
is full while tiles remain in hand.

The Dafny files follow the program's structure:

- `hex.dfy` (`HexGrid`) covers the board cells. `GetGridHexes` enumerates
  them with the same two nested loops, `Neighbors` gives the six neighbours in
  the fixed direction order, and `InBounds` is the bounds test the drop and
  highlight handlers use.
- `stacks.dfy` (`Stacks`) covers colour stacks, bottom first. `MatchCount`
  is the downward scan that counts the top run.
- `merge.dfy` (`Merge`) describes the cascade as functions on board values.
  `Absorb` is one neighbour transfer, `Sweep` is one pass over the
  neighbours and `MergeOutcome` is the result of the whole cascade. The
  lemmas state what the cascade promises.
- `game.dfy` (`Game`) holds the game state as a class with fields `grid`,
  `hand`, `score` and `gameOver`, and the operations that change it.
  `ProcessMerge` keeps the source's loop with its 20-round cap, and the
  proof shows that its outcome is `MergeOutcome`.
- `scenarios.dfy` (`Scenarios`) works out three concrete cascades from the
  definitions.

The state is modelled as follows:

- A board key is a `Hex` pair instead of the `"q,r"` string. The string is
  injective on integer pairs, so a `Map` keyed by strings behaves like a map
  keyed by pairs.
- A colour is one of five identifiers instead of a CSS colour string. Only
  equality between colours matters.
- The random choices behind a new hand (two tiles or one, and the colour)
  are a parameter `draws: seq<TileDraw>`.
- The 100 ms delayed step of a placement runs at once. `PlaceTile` covers
  the placement together with its delayed merge, scoring, refill and
  game-over check, and `SettlePlacement` is that delayed step.

Three facts about the source show up in the proofs:

- `placeTile` checks occupancy but neither the bounds nor the game-over
  flag. The bounds test is applied only by the drop and highlight handlers
  (`Game.LegalDrop`), and only the drop handler goes on to call `placeTile`
  (`Game.Game.Drop`). Drops after game over are still ignored, because game
  over implies a full board, so no cell passes the drop handler's test.
  `Drop` proves this from the invariant `Valid`.
- When `checkGameOver` is called after a placement, the hand has just been
  refilled if it was empty, so its `hasPlayableTiles` conjunct always holds
  there. Game over is set exactly when the board is full.
- The cascade loop never needs more than two rounds. A sweep removes each
  matching neighbour's whole top run and keeps the origin's top colour, so
  the second round finds nothing (`Merge.SecondSweepIsIdle`). The cap of 20
  rounds therefore never binds.

## Model

| member | source | states |
|---|---|---|
| HexGrid.GetGridHexes | script.js:49-59 | the enumerated cells are `GridHexes(radius)`: exactly the cells passing the bounds test, ordered by q then r, without duplicates |
| HexGrid.GridHexesMembership | script.js:49-59 | a cell is enumerated iff \|q\|, \|r\| and \|q + r\| are all at most the radius |
| HexGrid.GridHexesOrdered | script.js:51-56 | the enumeration is strictly increasing in (q, r) order, hence duplicate-free |
| HexGrid.GridHexesCount | script.js:3 | the radius-2 board has 19 cells |
| HexGrid.BoundsTestIsBoardMembership | script.js:364 | the drop handler's bounds test accepts exactly the cells of the board enumeration |
| HexGrid.Neighbors | script.js:61-66 | six neighbours, pairwise distinct, none equal to the cell itself |
| HexGrid.NeighborsAreAdjacent | script.js:61-66 | the neighbours are exactly the cells at hex distance 1 |
| HexGrid.NeighborsSymmetric | script.js:61-66 | n is a neighbour of h iff h is a neighbour of n |
| Stacks.TopRun | script.js:181-185 | the count is at most the height, the last n tiles all have the colour, and the tile below them (if any) does not |
| Stacks.MatchCount | script.js:181-185 | the scan returns the maximal top run of the colour, which is positive iff the top tile has that colour |
| Stacks.TransferTiles | script.js:188-191 | pushing `count` tiles onto one stack while popping the other leaves the first stack with `count` tiles of the colour on top and the second with its top `count` tiles removed |
| Stacks.StripTopRun | script.js:188-191 | popping the top run leaves a stack whose top is a different colour, and pushing the run back restores the stack |
| Merge.AbsorbOrigin | script.js:188-190 | the origin receives exactly the moved tiles, all of the top colour, on top of its old stack |
| Merge.AbsorbNeighborEffect | script.js:177-200 | a matching neighbour loses exactly its maximal top run (at least one tile) and is deleted when emptied; a non-matching or empty neighbour moves nothing; no other cell changes |
| Merge.AbsorbConserves | script.js:188-195 | a transfer keeps the number of tiles on the board, and the neighbour loses exactly the tiles moved |
| Merge.SweepOrigin | script.js:173-202 | after a round the origin is its old stack plus all moved tiles of the top colour |
| Merge.SweepOutside | script.js:173-202 | a round leaves every cell other than the origin and its neighbours unchanged |
| Merge.SweepNeighbor | script.js:173-202 | after a round each neighbour that matched has lost exactly its top run of the colour, and every other neighbour is unchanged |
| Merge.SweepSingleMatch | script.js:173-202 | when only one neighbour matches, the round is that single transfer |
| Merge.SweepSettles | script.js:173-202 | after a round no neighbour shows the origin's top colour on top |
| Merge.SweepNoMatch | script.js:173-202 | a round in which no neighbour matches changes nothing and moves nothing |
| Merge.SweepConserves | script.js:173-202 | a round keeps the number of tiles on the board |
| Merge.SecondSweepIsIdle | script.js:164-202 | after the first round the origin keeps its top colour and a second round moves nothing, so the loop stops after at most two rounds |
| Merge.MergeAbsentOrigin | script.js:157-159 | a cascade from an empty cell changes nothing and scores 0 |
| Merge.MergeAccounting | script.js:197-206 | without overflow the origin stays below 10 tiles, the score is 20 per tile it gained and no tile leaves the board; with overflow at least 10 tiles leave the board (all of the origin's) and the score is 20 per tile gained plus 100 |
| Merge.MergeFrame | script.js:164-221 | only the origin and its six neighbours can change |
| Merge.MergeNeighbors | script.js:173-202 | each neighbour topped with the origin's colour loses exactly its top run (deleted when emptied); the others are untouched |
| Merge.MergeOrigin | script.js:188-190 | a surviving origin is its old stack with tiles of its top colour added on top |
| Merge.MergePreservesWellFormed | script.js:193-206 | on a board whose stacks are non-empty and below 10 tiles, the cascade keeps that property and adds no cell |
| Game.DrawnStack | script.js:101-104 | a dealt stack has one or two tiles of the drawn colour, two exactly when the draw says tall |
| Game.EmptySpots | script.js:111 | the filter keeps exactly the listed cells that are unoccupied |
| Game.LegalDrop | script.js:341-343 | a cell passes the highlight and drop handlers' test (in bounds and unoccupied) iff it is one of the board's empty spots, the list `checkGameOver` counts |
| Game.NoEmptySpotsIffFull | script.js:110-114 | the board enumeration has no empty cell iff every in-bounds cell is occupied |
| Game.Game.constructor | script.js:8-11 | the game starts with an empty board, score 0, no game over and a dealt hand |
| Game.Game.InitGame | script.js:77-88 | reset empties the board, zeroes the score, clears the flag and deals a fresh hand from the draws |
| Game.Game.GenerateNewHand | script.js:99-107 | the hand becomes three dealt stacks, slot i built from draw i |
| Game.Game.CheckGameOver | script.js:109-120 | the flag becomes set iff it was set or the board is full while some hand slot holds tiles; it is never cleared |
| Game.Game.AbsorbNeighbor | script.js:174-200 | the transfer loop moves tiles one at a time and ends in the state and count given by `Absorb` |
| Game.Game.SweepNeighbors | script.js:170-202 | one round of the loop ends in the state given by `Sweep`, with points 20 per tile moved and `changed` set iff something moved |
| Game.Game.ProcessMerge | script.js:154-225 | the capped loop ends in exactly `MergeOutcome`'s board and points, after at most two rounds |
| Game.Game.SettlePlacement | script.js:136-151 | the delayed step leaves the board and adds the points of `MergeOutcome`, refills the hand exactly when every slot is empty, always leaves some tiles in hand, and raises game over exactly when the board is full |
| Game.Game.PlaceTile | script.js:122-152 | an occupied cell or an empty slot leaves everything unchanged; otherwise the stack is placed, the slot emptied and the delayed step run, so the board and score are those of the cascade from the placed cell; the score never drops and only the placed cell can be new |
| Game.Game.Drop | script.js:364-369 | a drop outside the board or on an occupied cell is ignored, and so is every drop after game over; a drop on an empty board cell before game over has exactly `placeTile`'s effect: nothing when the slot is empty, otherwise the cascade's board and points, the played slot emptied or the hand refilled, and game over exactly when the board is full; the board stays in bounds and game over still implies a full board |
| Scenarios.TwoRedsMerge | script.js:170-199 | a red tile placed beside a red tile absorbs it: one 2-tall red stack, 20 points |
| Scenarios.OnlyTopRunMoves | script.js:180-195 | a neighbour [Amber, Amber, Blue, Amber] gives up only its top Amber: 20 points, and the neighbour keeps [Amber, Amber, Blue] |
| Scenarios.TenthTileOverflows | script.js:204-206 | a red tile beside a 9-tall red stack reaches 10 tiles and overflows: the board is emptied and 9 × 20 + 100 = 280 points are scored |

## Left out

- `hexToPixel`, `pixelToHex` and `hexRound` are left out: they use floating-point screen geometry. `Drop` takes the cell the pointer was resolved to.
- Rendering, the score display, the game-over modal and its 300 ms delay are left out: they are DOM output.
- The drag plumbing (`startDrag`, `moveDrag`, the ghost element and listener registration) is left out as DOM event handling. The highlight handler's test, in bounds and unoccupied, is `LegalDrop`.
- The 100 ms delay in `placeTile` is modelled as running at once. A second placement that lands inside the delay window, before the cascade has run, is not modelled.
- `Math.random` is not modelled: the hand is built from the `draws` parameter.
- The confetti effect and the pulse animation are left out as visual effects.
- The play-again button's advertisement call is left out: it is an external SDK. Every path through it ends in `initGame`, which is modelled.
- The `newPlacedHex` marker is left out: only the renderer reads it.
- `hexToString` is not modelled: cells are keyed by the `Hex` pair directly.
- Colours are five named values rather than CSS strings.
