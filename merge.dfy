/**
 * The merge cascade as functions on grid values: one neighbour transfer
 * (`Absorb`), one pass over the six neighbours (`Sweep`) and the outcome of
 * the whole cascade (`MergeOutcome`), with the lemmas that describe them.
 */
module Merge {
  import opened HexGrid
  import opened Stacks

  /** The occupied cells of the board and their stacks. */
  type Grid = map<Hex, Stack>

  /** Points per tile moved, bonus for an overflow, and the loop's safety cap. */
  const MERGE_POINTS: nat := 20
  const OVERFLOW_BONUS: nat := 100
  const MAX_ITERATIONS: nat := 20

  /** Number of tiles on `x` (0 when the cell is empty). */
  function Height(g: Grid, x: Hex): nat
  {
    if x in g then |g[x]| else 0
  }

  /** Cell `x` is the same in both grids. */
  predicate AgreeAt(g: Grid, g': Grid, x: Hex)
  {
    (x in g <==> x in g') && (x in g ==> g[x] == g'[x])
  }

  /** Every stored stack is non-empty and below the overflow height. */
  predicate GridWellFormed(g: Grid)
  {
    forall x :: x in g ==> 0 < |g[x]| < MAX_STACK_HEIGHT
  }

  /** The neighbour check of the merge: `n` holds a non-empty stack whose top is `c`. */
  predicate Matches(g: Grid, n: Hex, c: Color)
  {
    n in g && |g[n]| > 0 && Top(g[n]) == c
  }

  /**
   * Cell `x` of `g'` is cell `x` of `g` with its maximal top run of `c`
   * removed, and the cell is gone when nothing is left.
   */
  predicate LostTopRun(g': Grid, g: Grid, x: Hex, c: Color)
    requires x in g
  {
    var rest := g[x][..|g[x]| - TopRun(g[x], c)];
    if rest == [] then x !in g' else x in g' && g'[x] == rest
  }

  /** One neighbour of the origin: move its top run of `c` onto the origin. */
  function Absorb(g: Grid, o: Hex, n: Hex, c: Color): (res: (Grid, nat))
    requires o in g && n != o
    ensures o in res.0
  {
    if Matches(g, n, c) then
      var m := TopRun(g[n], c);
      var rest := g[n][..|g[n]| - m];
      var g1 := g[o := g[o] + Repeat(c, m)][n := rest];
      (if |rest| == 0 then g1 - {n} else g1, m)
    else
      (g, 0)
  }

  /** The origin receives the moved tiles on top. */
  lemma AbsorbOrigin(g: Grid, o: Hex, n: Hex, c: Color)
    requires o in g && n != o
    ensures Absorb(g, o, n, c).0[o] == g[o] + Repeat(c, Absorb(g, o, n, c).1)
  {
  }

  /**
   * A matching neighbour hands over exactly its maximal top run (at least one
   * tile); a neighbour that does not match is left alone and nothing moves;
   * no cell other than the origin and the neighbour changes.
   */
  lemma AbsorbNeighborEffect(g: Grid, o: Hex, n: Hex, c: Color)
    requires o in g && n != o
    ensures Matches(g, n, c) ==>
              Absorb(g, o, n, c).1 == TopRun(g[n], c) > 0 && LostTopRun(Absorb(g, o, n, c).0, g, n, c)
    ensures !Matches(g, n, c) ==> Absorb(g, o, n, c) == (g, 0)
    ensures forall x :: x != o && x != n ==> AgreeAt(Absorb(g, o, n, c).0, g, x)
  {
  }

  /** The neighbours `ns`, visited left to right, each absorbed in turn. */
  function Sweep(g: Grid, o: Hex, c: Color, ns: seq<Hex>): (res: (Grid, nat))
    requires o in g && o !in ns && Distinct(ns)
    ensures o in res.0
    decreases |ns|
  {
    if ns == [] then
      (g, 0)
    else
      var (g1, m1) := Sweep(g, o, c, ns[..|ns| - 1]);
      var (g2, m2) := Absorb(g1, o, ns[|ns| - 1], c);
      (g2, m1 + m2)
  }

  /** After a sweep the origin carries the moved tiles on top. */
  lemma {:induction false} SweepOrigin(g: Grid, o: Hex, c: Color, ns: seq<Hex>)
    requires o in g && o !in ns && Distinct(ns)
    ensures Sweep(g, o, c, ns).0[o] == g[o] + Repeat(c, Sweep(g, o, c, ns).1)
    decreases |ns|
  {
    if ns != [] {
      var pre := ns[..|ns| - 1];
      var n := ns[|ns| - 1];
      SweepOrigin(g, o, c, pre);
      var (g1, m1) := Sweep(g, o, c, pre);
      AbsorbOrigin(g1, o, n, c);
      var (g2, m2) := Absorb(g1, o, n, c);
      RepeatConcat(c, m1, m2);
      assert g2[o] == g[o] + Repeat(c, m1 + m2);
    }
  }

  /** A sweep leaves every cell outside the origin and `ns` unchanged. */
  lemma {:induction false} SweepOutside(g: Grid, o: Hex, c: Color, ns: seq<Hex>, x: Hex)
    requires o in g && o !in ns && Distinct(ns)
    requires x != o && x !in ns
    ensures AgreeAt(Sweep(g, o, c, ns).0, g, x)
    decreases |ns|
  {
    if ns != [] {
      var pre := ns[..|ns| - 1];
      var n := ns[|ns| - 1];
      assert x !in pre;
      SweepOutside(g, o, c, pre, x);
      AbsorbNeighborEffect(Sweep(g, o, c, pre).0, o, n, c);
    }
  }

  /**
   * After a sweep every neighbour of `ns` whose top was `c` lost exactly its
   * top run of `c`; every other neighbour is unchanged.
   */
  lemma {:induction false} SweepNeighbor(g: Grid, o: Hex, c: Color, ns: seq<Hex>, x: Hex)
    requires o in g && o !in ns && Distinct(ns) && x in ns
    ensures if Matches(g, x, c) then LostTopRun(Sweep(g, o, c, ns).0, g, x, c)
            else AgreeAt(Sweep(g, o, c, ns).0, g, x)
    decreases |ns|
  {
    var pre := ns[..|ns| - 1];
    var n := ns[|ns| - 1];
    var g1 := Sweep(g, o, c, pre).0;
    var g2 := Sweep(g, o, c, ns).0;
    assert g2 == Absorb(g1, o, n, c).0;
    AbsorbNeighborEffect(g1, o, n, c);
    if x == n {
      assert n !in pre;
      SweepOutside(g, o, c, pre, n);
      assert AgreeAt(g1, g, x);
      assert Matches(g1, x, c) == Matches(g, x, c);
    } else {
      assert x in pre;
      SweepNeighbor(g, o, c, pre, x);
      assert AgreeAt(g2, g1, x);
      assert x in g2 <==> x in g1;
      if x in g1 {
        assert g2[x] == g1[x];
      }
    }
  }

  /** Sweeping one more neighbour is one more `Absorb` after the shorter sweep. */
  lemma SweepStep(g: Grid, o: Hex, c: Color, ns: seq<Hex>, k: nat)
    requires o in g && o !in ns && Distinct(ns) && k < |ns|
    ensures o !in ns[..k] && Distinct(ns[..k]) && o !in ns[..k + 1] && Distinct(ns[..k + 1])
    ensures Sweep(g, o, c, ns[..k + 1]).0 == Absorb(Sweep(g, o, c, ns[..k]).0, o, ns[k], c).0
    ensures Sweep(g, o, c, ns[..k + 1]).1 == Sweep(g, o, c, ns[..k]).1 + Absorb(Sweep(g, o, c, ns[..k]).0, o, ns[k], c).1
  {
    assert ns[..k + 1][..k] == ns[..k];
  }

  /** When only neighbour `n` of `ns` matches, the sweep is that one transfer. */
  lemma {:induction false} SweepSingleMatch(g: Grid, o: Hex, c: Color, ns: seq<Hex>, n: Hex)
    requires o in g && o !in ns && Distinct(ns) && n in ns
    requires forall x :: x in ns && x != n ==> !Matches(g, x, c)
    ensures Sweep(g, o, c, ns) == Absorb(g, o, n, c)
    decreases |ns|
  {
    var pre := ns[..|ns| - 1];
    var last := ns[|ns| - 1];
    assert Sweep(g, o, c, ns).0 == Absorb(Sweep(g, o, c, pre).0, o, last, c).0;
    assert Sweep(g, o, c, ns).1 == Sweep(g, o, c, pre).1 + Absorb(Sweep(g, o, c, pre).0, o, last, c).1;
    if last == n {
      assert n !in pre;
      SweepNoMatch(g, o, c, pre);
    } else {
      assert n in pre;
      SweepSingleMatch(g, o, c, pre, n);
      var a := Absorb(g, o, n, c);
      AbsorbNeighborEffect(g, o, n, c);
      assert last in ns && last != n;
      assert !Matches(g, last, c);
      assert AgreeAt(a.0, g, last);
      assert !Matches(a.0, last, c);
      AbsorbNeighborEffect(a.0, o, last, c);
      assert Absorb(a.0, o, last, c) == (a.0, 0);
    }
  }

  /**
   * What the cascade started at `o` leaves in the grid and scores: one sweep
   * over the neighbours with the origin's top colour, then the overflow rule.
   */
  function MergeOutcome(g: Grid, o: Hex): (Grid, nat)
  {
    if o !in g || |g[o]| == 0 then
      (g, 0)
    else
      var (g1, moved) := Sweep(g, o, Top(g[o]), Neighbors(o));
      if |g1[o]| >= MAX_STACK_HEIGHT then
        (g1 - {o}, MERGE_POINTS * moved + OVERFLOW_BONUS)
      else
        (g1, MERGE_POINTS * moved)
  }

  // ---------------------------------------------------------------------
  // One sweep settles the neighbourhood
  // ---------------------------------------------------------------------

  /** After a sweep no neighbour of `ns` still shows `c` on top. */
  lemma SweepSettles(g: Grid, o: Hex, c: Color, ns: seq<Hex>, x: Hex)
    requires o in g && o !in ns && Distinct(ns) && x in ns
    ensures !Matches(Sweep(g, o, c, ns).0, x, c)
  {
    SweepNeighbor(g, o, c, ns, x);
    if Matches(g, x, c) {
      StripTopRun(g[x], c, g[x][..|g[x]| - TopRun(g[x], c)]);
    }
  }

  /** A sweep over neighbours none of which matches changes nothing. */
  lemma {:induction false} SweepNoMatch(g: Grid, o: Hex, c: Color, ns: seq<Hex>)
    requires o in g && o !in ns && Distinct(ns)
    requires forall x :: x in ns ==> !Matches(g, x, c)
    ensures Sweep(g, o, c, ns) == (g, 0)
    decreases |ns|
  {
    if ns != [] {
      SweepNoMatch(g, o, c, ns[..|ns| - 1]);
      AbsorbNeighborEffect(g, o, ns[|ns| - 1], c);
    }
  }

  /**
   * The origin keeps its top colour and every neighbour that matched lost its
   * whole top run, so a second sweep with the same colour finds nothing:
   * the cascade loop stops after at most two rounds.
   */
  lemma SecondSweepIsIdle(g: Grid, o: Hex)
    requires o in g && |g[o]| > 0
    ensures var (g1, moved) := Sweep(g, o, Top(g[o]), Neighbors(o));
            |g1[o]| > 0 && Top(g1[o]) == Top(g[o]) &&
            Sweep(g1, o, Top(g1[o]), Neighbors(o)) == (g1, 0)
  {
    var c := Top(g[o]);
    var ns := Neighbors(o);
    var (g1, moved) := Sweep(g, o, c, ns);
    SweepOrigin(g, o, c, ns);
    assert Top(g1[o]) == c;
    forall x | x in ns
      ensures !Matches(g1, x, c)
    {
      SweepSettles(g, o, c, ns, x);
    }
    SweepNoMatch(g1, o, c, ns);
  }

  // ---------------------------------------------------------------------
  // Counting tiles
  // ---------------------------------------------------------------------

  /** Total number of tiles on the board. */
  ghost function TotalTiles(g: Grid): nat
    decreases |g|
  {
    if g == map[] then 0
    else
      var k :| k in g;
      assert |g - {k}| < |g| by {
        assert (g - {k}).Keys == g.Keys - {k};
      }
      |g[k]| + TotalTiles(g - {k})
  }

  lemma {:induction false} TotalTilesRemove(g: Grid, k: Hex)
    requires k in g
    ensures TotalTiles(g) == |g[k]| + TotalTiles(g - {k})
    decreases |g|
  {
    var j :| j in g && TotalTiles(g) == |g[j]| + TotalTiles(g - {j});
    if j != k {
      assert (g - {j}).Keys == g.Keys - {j};
      assert (g - {k}).Keys == g.Keys - {k};
      TotalTilesRemove(g - {j}, k);
      TotalTilesRemove(g - {k}, j);
      assert (g - {j}) - {k} == (g - {k}) - {j};
    }
  }

  /** Replacing or removing one cell changes the total by the difference in its height. */
  lemma TotalTilesAt(g: Grid, g': Grid, k: Hex)
    requires forall x :: x != k ==> AgreeAt(g, g', x)
    ensures TotalTiles(g') + Height(g, k) == TotalTiles(g) + Height(g', k)
  {
    var base := g - {k};
    assert g' - {k} == base by {
      forall x
        ensures (x in g' - {k} <==> x in base) && (x in base ==> (g' - {k})[x] == base[x])
      {
        if x != k {
          assert AgreeAt(g, g', x);
        }
      }
    }
    if k in g {
      TotalTilesRemove(g, k);
    } else {
      assert g == base;
    }
    if k in g' {
      TotalTilesRemove(g', k);
    } else {
      assert g' == base;
    }
  }

  /** One neighbour transfer conserves the tiles on the board. */
  lemma AbsorbConserves(g: Grid, o: Hex, n: Hex, c: Color)
    requires o in g && n != o
    ensures TotalTiles(Absorb(g, o, n, c).0) == TotalTiles(g)
    ensures Height(Absorb(g, o, n, c).0, n) + Absorb(g, o, n, c).1 == Height(g, n)
  {
    var (g', m) := Absorb(g, o, n, c);
    AbsorbOrigin(g, o, n, c);
    AbsorbNeighborEffect(g, o, n, c);
    if Matches(g, n, c) {
      var mid := g[o := g'[o]];
      TotalTilesAt(g, mid, o);
      TotalTilesAt(mid, g', n);
      StripTopRun(g[n], c, g[n][..|g[n]| - m]);
    }
  }

  /** One sweep conserves the tiles on the board and the origin gains what the neighbours lost. */
  lemma {:induction false} SweepConserves(g: Grid, o: Hex, c: Color, ns: seq<Hex>)
    requires o in g && o !in ns && Distinct(ns)
    ensures TotalTiles(Sweep(g, o, c, ns).0) == TotalTiles(g)
    decreases |ns|
  {
    if ns != [] {
      SweepConserves(g, o, c, ns[..|ns| - 1]);
      var (g1, m1) := Sweep(g, o, c, ns[..|ns| - 1]);
      AbsorbConserves(g1, o, ns[|ns| - 1], c);
    }
  }

  // ---------------------------------------------------------------------
  // What the cascade promises
  // ---------------------------------------------------------------------

  /** Without a stack at the origin the cascade does nothing and scores nothing. */
  lemma MergeAbsentOrigin(g: Grid, o: Hex)
    requires o !in g
    ensures MergeOutcome(g, o) == (g, 0)
  {
  }

  /**
   * Points are 20 per tile moved onto the origin, plus 100 exactly when the
   * origin reaches the overflow height, in which case it is removed and the
   * tiles it held leave the board; otherwise the board keeps all its tiles.
   */
  lemma MergeAccounting(g: Grid, o: Hex)
    requires o in g && |g[o]| > 0
    ensures o in MergeOutcome(g, o).0 ==>
              var (g', p) := MergeOutcome(g, o);
              |g'[o]| < MAX_STACK_HEIGHT &&
              p == MERGE_POINTS * (|g'[o]| - |g[o]|) &&
              TotalTiles(g') == TotalTiles(g)
    ensures o !in MergeOutcome(g, o).0 ==>
              var (g', p) := MergeOutcome(g, o);
              var cleared := TotalTiles(g) - TotalTiles(g');
              cleared >= MAX_STACK_HEIGHT && cleared >= |g[o]| &&
              p == MERGE_POINTS * (cleared - |g[o]|) + OVERFLOW_BONUS
  {
    var c := Top(g[o]);
    var (g1, moved) := Sweep(g, o, c, Neighbors(o));
    SweepConserves(g, o, c, Neighbors(o));
    SweepOrigin(g, o, c, Neighbors(o));
    assert |g1[o]| == |g[o]| + moved;
    var (g', p) := MergeOutcome(g, o);
    if |g1[o]| >= MAX_STACK_HEIGHT {
      TotalTilesRemove(g1, o);
      assert g' == g1 - {o} && p == MERGE_POINTS * moved + OVERFLOW_BONUS;

    } else {
      assert g' == g1 && p == MERGE_POINTS * moved;
      assert o in g';
    }
  }

  /** Only the origin and its six neighbours can change. */
  lemma MergeFrame(g: Grid, o: Hex, x: Hex)
    requires x != o && x !in Neighbors(o)
    ensures AgreeAt(MergeOutcome(g, o).0, g, x)
  {
    if o in g && |g[o]| > 0 {
      SweepOutside(g, o, Top(g[o]), Neighbors(o), x);
    }
  }

  /**
   * Each neighbour whose top is the origin's top colour loses exactly its
   * maximal top run of that colour (and is removed when emptied); the other
   * neighbours are untouched.
   */
  lemma MergeNeighbors(g: Grid, o: Hex, n: Hex)
    requires o in g && |g[o]| > 0 && n in Neighbors(o)
    ensures var g' := MergeOutcome(g, o).0;
            if Matches(g, n, Top(g[o])) then LostTopRun(g', g, n, Top(g[o])) else AgreeAt(g', g, n)
  {
    SweepNeighbor(g, o, Top(g[o]), Neighbors(o), n);
  }

  /** The origin, when not overflowed, is its old stack with the moved tiles of its top colour on top. */
  lemma MergeOrigin(g: Grid, o: Hex)
    requires o in g && |g[o]| > 0
    ensures var (g', p) := MergeOutcome(g, o);
            o in g' ==> |g'[o]| >= |g[o]| && g'[o] == g[o] + Repeat(Top(g[o]), |g'[o]| - |g[o]|)
  {
    SweepOrigin(g, o, Top(g[o]), Neighbors(o));
  }

  /** The cascade keeps every stack non-empty and below the overflow height, and adds no cell. */
  lemma MergePreservesWellFormed(g: Grid, o: Hex)
    requires GridWellFormed(g)
    ensures GridWellFormed(MergeOutcome(g, o).0)
    ensures MergeOutcome(g, o).0.Keys <= g.Keys
  {
    if o in g {
      var c := Top(g[o]);
      var ns := Neighbors(o);
      var (g1, moved) := Sweep(g, o, c, ns);
      var g' := MergeOutcome(g, o).0;
      forall x | x in g'
        ensures x in g && 0 < |g'[x]| < MAX_STACK_HEIGHT
      {
        if x in ns {
          SweepNeighbor(g, o, c, ns, x);
        } else if x != o {
          SweepOutside(g, o, c, ns, x);
        } else {
          SweepOrigin(g, o, c, ns);
        }
      }
    }
  }
}
