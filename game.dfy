/**
 * The game controller: the mutable game state (board, hand, score and
 * game-over flag) and the operations that change it — placing a hand stack,
 * the merge cascade it triggers, hand refill, game-over detection and reset.
 */
module Game {
  import opened HexGrid
  import opened Stacks
  import opened Merge

  /** Number of stacks in the hand. */
  const HAND_SIZE: nat := 3

  /**
   * The random choices behind one new hand stack: whether it has two tiles
   * instead of one, and its colour.
   */
  datatype TileDraw = TileDraw(tall: bool, color: Color)

  /** A stack as dealt into the hand: one or two tiles of one colour. */
  predicate Dealt(s: Stack)
  {
    1 <= |s| <= 2 && Uniform(s)
  }

  /** A hand slot is either played (empty) or still holds a dealt stack. */
  predicate SlotWellFormed(s: Stack)
  {
    s == [] || Dealt(s)
  }

  /** The stack dealt for draw `d`. */
  function DrawnStack(d: TileDraw): (s: Stack)
    ensures Dealt(s) && Top(s) == d.color && (|s| == 2 <==> d.tall)
  {
    Repeat(d.color, if d.tall then 2 else 1)
  }

  /** Some hand slot still holds tiles. */
  predicate HasPlayableTiles(hand: seq<Stack>)
  {
    exists i :: 0 <= i < |hand| && |hand[i]| > 0
  }

  /** Every hand slot has been played. */
  predicate AllPlayed(hand: seq<Stack>)
  {
    forall i :: 0 <= i < |hand| ==> |hand[i]| == 0
  }

  /** Every in-bounds cell is occupied. */
  ghost predicate BoardFull(g: Grid)
  {
    forall h :: InBounds(h, GRID_RADIUS) ==> h in g
  }

  /** The cells of `cells` that are not occupied in `g`, in order. */
  function EmptySpots(cells: seq<Hex>, g: Grid): (r: seq<Hex>)
    ensures forall h :: h in r <==> h in cells && h !in g
    ensures |r| <= |cells|
  {
    if cells == [] then []
    else
      var rest := EmptySpots(cells[1..], g);
      if cells[0] !in g then [cells[0]] + rest else rest
  }

  /** The empty-spot count of the board is zero exactly when the board is full. */
  lemma NoEmptySpotsIffFull(g: Grid)
    ensures |EmptySpots(GridHexes(GRID_RADIUS), g)| == 0 <==> BoardFull(g)
  {
    GridHexesMembership(GRID_RADIUS);
    var e := EmptySpots(GridHexes(GRID_RADIUS), g);
    if |e| > 0 {
      assert e[0] in e;
    }
  }

  /**
   * The test of the highlight and drop handlers: `h` passes the bounds test
   * and is unoccupied, which makes it one of the board's empty spots.
   */
  function LegalDrop(g: Grid, h: Hex): (ok: bool)
    ensures ok <==> h in EmptySpots(GridHexes(GRID_RADIUS), g)
  {
    GridHexesMembership(GRID_RADIUS);
    InBounds(h, GRID_RADIUS) && h !in g
  }

  /** A placement does something only on an empty cell from a non-empty hand slot. */
  predicate CanPlace(g: Grid, hand: seq<Stack>, h: Hex, handIndex: int)
  {
    h !in g && 0 <= handIndex < |hand| && |hand[handIndex]| > 0
  }

  class Game {
    var grid: Grid
    var hand: seq<Stack>
    var score: nat
    var gameOver: bool

    /** Stacks on the board are non-empty and below the overflow height; the hand has three well-formed slots. */
    ghost predicate WellFormed()
      reads this
    {
      GridWellFormed(grid) &&
      |hand| == HAND_SIZE && (forall i :: 0 <= i < |hand| ==> SlotWellFormed(hand[i]))
    }

    /** In addition, every occupied cell is on the board and game over means the board is full. */
    ghost predicate Valid()
      reads this
    {
      WellFormed() &&
      (forall h :: h in grid ==> InBounds(h, GRID_RADIUS)) &&
      (gameOver ==> BoardFull(grid))
    }

    /** The highlight / drop query on the current board. */
    predicate IsLegalDrop(h: Hex)
      reads this
    {
      LegalDrop(grid, h)
    }

    /** The initial state, followed by the first `initGame`. */
    constructor (draws: seq<TileDraw>)
      requires |draws| == HAND_SIZE
      ensures Valid()
      ensures grid == map[] && score == 0 && !gameOver
      ensures forall i :: 0 <= i < HAND_SIZE ==> hand[i] == DrawnStack(draws[i])
    {
      grid := map[];
      hand := [];
      score := 0;
      gameOver := false;
      new;
      InitGame(draws);
    }

    /** Reset: empty board, zero score, flag cleared, fresh hand. */
    method InitGame(draws: seq<TileDraw>)
      requires |draws| == HAND_SIZE
      modifies this
      ensures Valid()
      ensures grid == map[] && score == 0 && !gameOver
      ensures |hand| == HAND_SIZE && forall i :: 0 <= i < HAND_SIZE ==> hand[i] == DrawnStack(draws[i])
    {
      grid := map[];
      hand := [];
      score := 0;
      gameOver := false;
      GenerateNewHand(draws);
    }

    /** Deal three new stacks, one per draw. */
    method GenerateNewHand(draws: seq<TileDraw>)
      requires |draws| == HAND_SIZE
      modifies this`hand
      ensures |hand| == HAND_SIZE
      ensures forall i :: 0 <= i < HAND_SIZE ==> hand[i] == DrawnStack(draws[i])
      ensures forall i :: 0 <= i < HAND_SIZE ==> Dealt(hand[i])
    {
      hand := [];
      var i := 0;
      while i < HAND_SIZE
        invariant 0 <= i <= HAND_SIZE
        invariant |hand| == i
        invariant forall k :: 0 <= k < i ==> hand[k] == DrawnStack(draws[k])
      {
        var count := if draws[i].tall then 2 else 1;
        var color := draws[i].color;
        hand := hand + [Repeat(color, count)];
        i := i + 1;
      }
    }

    /** Raise the flag when no board cell is empty and some hand slot still holds tiles; never clear it. */
    method CheckGameOver()
      modifies this`gameOver
      ensures gameOver == (old(gameOver) || (BoardFull(grid) && HasPlayableTiles(hand)))
    {
      var allHexes := GetGridHexes(GRID_RADIUS);
      var emptySpots := EmptySpots(allHexes, grid);
      var hasPlayableTiles := HasPlayableTiles(hand);
      NoEmptySpotsIffFull(grid);
      if |emptySpots| == 0 && hasPlayableTiles {
        gameOver := true;
      }
    }

    /** Move the top run of `top` from neighbour `n` onto the origin `o`; returns the tiles moved. */
    method AbsorbNeighbor(o: Hex, n: Hex, top: Color) returns (matchCount: nat)
      requires o in grid && n != o
      modifies this`grid
      ensures grid == Absorb(old(grid), o, n, top).0 && matchCount == Absorb(old(grid), o, n, top).1
    {
      matchCount := 0;
      if n in grid && |grid[n]| > 0 {
        var neighborStack := grid[n];
        if Top(neighborStack) == top {
          matchCount := MatchCount(neighborStack, top);
          if matchCount > 0 {
            var current, rest := TransferTiles(grid[o], neighborStack, top, matchCount);
            var moved := grid[o := current][n := rest];
            assert Absorb(old(grid), o, n, top) == (if |rest| == 0 then moved - {n} else moved, matchCount);
            grid := moved;
            if |rest| == 0 {
              grid := grid - {n};
            }
          }
        }
      }
    }

    /** One round of the cascade: visit the six neighbours of `o` in order, absorbing each match. */
    method SweepNeighbors(o: Hex, topColor: Color) returns (points: nat, changed: bool, ghost moved: nat)
      requires o in grid
      modifies this`grid
      ensures (grid, moved) == Sweep(old(grid), o, topColor, Neighbors(o))
      ensures points == MERGE_POINTS * moved && (changed <==> moved > 0)
    {
      points := 0;
      changed := false;
      moved := 0;
      var neighbors := Neighbors(o);
      ghost var before := grid;
      var k := 0;
      while k < |neighbors|
        invariant 0 <= k <= |neighbors|
        invariant o in grid
        invariant o !in neighbors[..k] && Distinct(neighbors[..k])
        invariant grid == Sweep(before, o, topColor, neighbors[..k]).0
        invariant moved == Sweep(before, o, topColor, neighbors[..k]).1
        invariant points == MERGE_POINTS * moved
        invariant changed <==> moved > 0
      {
        SweepStep(before, o, topColor, neighbors, k);
        var matchCount := AbsorbNeighbor(o, neighbors[k], topColor);
        assert grid == Sweep(before, o, topColor, neighbors[..k + 1]).0;
        assert moved + matchCount == Sweep(before, o, topColor, neighbors[..k + 1]).1;
        if matchCount > 0 {
          points := points + matchCount * MERGE_POINTS;
          changed := true;
        }
        assert points == MERGE_POINTS * moved + MERGE_POINTS * matchCount;
        moved := moved + matchCount;
        k := k + 1;
      }
      assert neighbors[..k] == neighbors;
    }

    /**
     * The merge cascade from `o`, with the source's loop and its safety cap of
     * 20 rounds. The result is the single-sweep outcome: the loop never runs
     * more than two rounds, so the cap never binds.
     */
    method ProcessMerge(o: Hex) returns (points: nat, ghost rounds: nat)
      modifies this`grid
      ensures (grid, points) == MergeOutcome(old(grid), o)
      ensures rounds <= 2 < MAX_ITERATIONS
    {
      var totalPoints := 0;
      rounds := 0;
      if o !in grid {
        return 0, rounds;
      }
      ghost var g0 := grid;
      var changed := true;
      var iterations := 0;
      while changed && iterations < MAX_ITERATIONS
        invariant 0 <= iterations <= 2
        invariant o in grid
        invariant iterations == 0 ==> grid == g0 && totalPoints == 0 && changed
        invariant iterations > 0 ==>
                    |g0[o]| > 0 && (grid, totalPoints) == MergeOutcome(g0, o) &&
                    |grid[o]| > 0 && Top(grid[o]) == Top(g0[o]) &&
                    Sweep(grid, o, Top(grid[o]), Neighbors(o)) == (grid, 0)
        invariant iterations == 2 ==> !changed
        decreases MAX_ITERATIONS - iterations
      {
        changed := false;
        iterations := iterations + 1;
        if |grid[o]| == 0 {
          break;
        }
        var topColor := Top(grid[o]);
        var roundPoints;
        ghost var moved;
        roundPoints, changed, moved := SweepNeighbors(o, topColor);
        totalPoints := totalPoints + roundPoints;
        if iterations == 1 {
          SecondSweepIsIdle(g0, o);
        }
        if |grid[o]| >= MAX_STACK_HEIGHT {
          grid := grid - {o};
          totalPoints := totalPoints + OVERFLOW_BONUS;
          changed := false;
          break;
        }
      }
      points := totalPoints;
      rounds := iterations;
    }

    /**
     * The delayed step after a placement on `h`: merge from `h`, add the
     * points, refill the hand when every slot is empty, check for game over.
     * After the refill some slot always holds tiles, so game over is raised
     * exactly when the board is full.
     */
    method SettlePlacement(h: Hex, draws: seq<TileDraw>)
      requires WellFormed() && |draws| == HAND_SIZE
      modifies this
      ensures WellFormed()
      ensures grid == MergeOutcome(old(grid), h).0 && score == old(score) + MergeOutcome(old(grid), h).1
      ensures if AllPlayed(old(hand))
              then forall i :: 0 <= i < HAND_SIZE ==> hand[i] == DrawnStack(draws[i])
              else hand == old(hand)
      ensures HasPlayableTiles(hand)
      ensures gameOver == (old(gameOver) || BoardFull(grid))
    {
      MergePreservesWellFormed(grid, h);
      var points, rounds := ProcessMerge(h);
      if points > 0 {
        score := score + points;
      }
      if AllPlayed(hand) {
        GenerateNewHand(draws);
        assert |hand[0]| > 0;
      } else {
        assert HasPlayableTiles(hand);
      }
      CheckGameOver();
    }

    /**
     * Place hand slot `handIndex` on `h` and run the delayed step at once.
     * Nothing happens when `h` is occupied or the slot is missing or empty.
     */
    method PlaceTile(h: Hex, handIndex: int, draws: seq<TileDraw>)
      requires WellFormed() && |draws| == HAND_SIZE
      modifies this
      ensures WellFormed()
      ensures !CanPlace(old(grid), old(hand), h, handIndex) ==>
                grid == old(grid) && hand == old(hand) && score == old(score) && gameOver == old(gameOver)
      ensures CanPlace(old(grid), old(hand), h, handIndex) ==>
                var (g', p) := MergeOutcome(old(grid)[h := old(hand)[handIndex]], h);
                var played := old(hand)[handIndex := []];
                grid == g' && score == old(score) + p &&
                (if AllPlayed(played)
                 then forall i :: 0 <= i < HAND_SIZE ==> hand[i] == DrawnStack(draws[i])
                 else hand == played) &&
                gameOver == (old(gameOver) || BoardFull(grid))
      ensures score >= old(score) && (old(gameOver) ==> gameOver)
      ensures grid.Keys <= old(grid.Keys) + {h}
    {
      if h in grid {
        return;
      }
      if !(0 <= handIndex < |hand|) || |hand[handIndex]| == 0 {
        return;
      }
      ghost var placed := grid[h := hand[handIndex]];
      grid := grid[h := hand[handIndex]];
      hand := hand[handIndex := []];
      SettlePlacement(h, draws);
      MergePreservesWellFormed(placed, h);
    }

    /**
     * The drop handler: a hand stack dropped on `h` is placed when `h` is on
     * the board and empty, and ignored otherwise. Once the game is over, every
     * drop is ignored, since the board is full.
     */
    method Drop(h: Hex, handIndex: int, draws: seq<TileDraw>)
      requires Valid() && |draws| == HAND_SIZE
      modifies this
      ensures Valid()
      ensures (old(gameOver) || !old(IsLegalDrop(h))) ==>
                grid == old(grid) && hand == old(hand) && score == old(score) && gameOver == old(gameOver)
      ensures !old(gameOver) && old(IsLegalDrop(h)) && !CanPlace(old(grid), old(hand), h, handIndex) ==>
                grid == old(grid) && hand == old(hand) && score == old(score) && !gameOver
      ensures !old(gameOver) && old(IsLegalDrop(h)) && CanPlace(old(grid), old(hand), h, handIndex) ==>
                var (g', p) := MergeOutcome(old(grid)[h := old(hand)[handIndex]], h);
                var played := old(hand)[handIndex := []];
                grid == g' && score == old(score) + p &&
                (if AllPlayed(played)
                 then forall i :: 0 <= i < HAND_SIZE ==> hand[i] == DrawnStack(draws[i])
                 else hand == played) &&
                gameOver == BoardFull(grid)
      ensures score >= old(score)
    {
      if IsLegalDrop(h) {
        PlaceTile(h, handIndex, draws);
      }
    }
  }
}
