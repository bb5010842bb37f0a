/**
 * Concrete cascades on small boards, worked out from the merge definition
 * one neighbour at a time.
 */
module Scenarios {
  import opened HexGrid
  import opened Stacks
  import opened Merge

  // ---------------------------------------------------------------------
  // Two red tiles: the placed one absorbs its neighbour
  // ---------------------------------------------------------------------

  lemma TwoRedsAbsorb()
    ensures Absorb(map[Hex(0, 0) := [Red], Hex(1, 0) := [Red]], Hex(1, 0), Hex(0, 0), Red)
            == (map[Hex(1, 0) := [Red, Red]], 1)
  {
    var g := map[Hex(0, 0) := [Red], Hex(1, 0) := [Red]];
    var o := Hex(1, 0);
    var g4 := map[Hex(1, 0) := [Red, Red]];
    assert TopRun([Red], Red) == 1;
    assert Matches(g, Hex(0, 0), Red);
    assert Repeat(Red, 1) == [Red];
    var after := g[o := [Red] + Repeat(Red, 1)][Hex(0, 0) := []] - {Hex(0, 0)};
    assert after.Keys == g4.Keys && after[o] == g4[o];
    assert after == g4;
  }

  lemma TwoRedsSweep()
    ensures Sweep(map[Hex(0, 0) := [Red], Hex(1, 0) := [Red]], Hex(1, 0), Red, Neighbors(Hex(1, 0)))
            == (map[Hex(1, 0) := [Red, Red]], 1)
  {
    var g := map[Hex(0, 0) := [Red], Hex(1, 0) := [Red]];
    var o := Hex(1, 0);
    var ns := Neighbors(o);
    assert ns == [Hex(2, 0), Hex(2, -1), Hex(1, -1), Hex(0, 0), Hex(0, 1), Hex(1, 1)];
    SweepSingleMatch(g, o, Red, ns, Hex(0, 0));
    TwoRedsAbsorb();
  }

  /** A red tile placed next to a red tile absorbs it: one 2-tall red stack at the placed cell, 20 points. */
  lemma TwoRedsMerge()
    ensures MergeOutcome(map[Hex(0, 0) := [Red], Hex(1, 0) := [Red]], Hex(1, 0))
            == (map[Hex(1, 0) := [Red, Red]], 20)
  {
    TwoRedsSweep();
  }

  // ---------------------------------------------------------------------
  // Only the contiguous top run moves
  // ---------------------------------------------------------------------

  lemma TopRunAbsorb()
    ensures Absorb(map[Hex(0, 0) := [Blue, Amber], Hex(1, 0) := [Amber, Amber, Blue, Amber]], Hex(0, 0), Hex(1, 0), Amber)
            == (map[Hex(0, 0) := [Blue, Amber, Amber], Hex(1, 0) := [Amber, Amber, Blue]], 1)
  {
    var g := map[Hex(0, 0) := [Blue, Amber], Hex(1, 0) := [Amber, Amber, Blue, Amber]];
    var o := Hex(0, 0);
    var g1 := map[Hex(0, 0) := [Blue, Amber, Amber], Hex(1, 0) := [Amber, Amber, Blue]];
    assert TopRun([Amber, Amber, Blue, Amber], Amber) == 1;
    assert Matches(g, Hex(1, 0), Amber);
    assert [Amber, Amber, Blue, Amber][..3] == [Amber, Amber, Blue];
    assert Repeat(Amber, 1) == [Amber];
    var after := g[o := [Blue, Amber] + Repeat(Amber, 1)][Hex(1, 0) := [Amber, Amber, Blue]];
    assert after.Keys == g1.Keys && after[o] == g1[o] && after[Hex(1, 0)] == g1[Hex(1, 0)];
    assert after == g1;
  }

  lemma TopRunSweep()
    ensures Sweep(map[Hex(0, 0) := [Blue, Amber], Hex(1, 0) := [Amber, Amber, Blue, Amber]], Hex(0, 0), Amber, Neighbors(Hex(0, 0)))
            == (map[Hex(0, 0) := [Blue, Amber, Amber], Hex(1, 0) := [Amber, Amber, Blue]], 1)
  {
    var g := map[Hex(0, 0) := [Blue, Amber], Hex(1, 0) := [Amber, Amber, Blue, Amber]];
    var o := Hex(0, 0);
    var ns := Neighbors(o);
    assert ns == [Hex(1, 0), Hex(1, -1), Hex(0, -1), Hex(-1, 0), Hex(-1, 1), Hex(0, 1)];
    SweepSingleMatch(g, o, Amber, ns, Hex(1, 0));
    TopRunAbsorb();
  }

  /** Only the contiguous top run moves: [Amber, Amber, Blue, Amber] hands over one Amber. */
  lemma OnlyTopRunMoves()
    ensures MergeOutcome(map[Hex(0, 0) := [Blue, Amber], Hex(1, 0) := [Amber, Amber, Blue, Amber]], Hex(0, 0))
            == (map[Hex(0, 0) := [Blue, Amber, Amber], Hex(1, 0) := [Amber, Amber, Blue]], 20)
  {
    TopRunSweep();
  }

  // ---------------------------------------------------------------------
  // The tenth tile overflows
  // ---------------------------------------------------------------------

  lemma TenthTileAbsorb()
    ensures Absorb(map[Hex(0, 0) := Repeat(Red, 9), Hex(0, 1) := [Red]], Hex(0, 1), Hex(0, 0), Red)
            == (map[Hex(0, 1) := [Red] + Repeat(Red, 9)], 9)
  {
    var g := map[Hex(0, 0) := Repeat(Red, 9), Hex(0, 1) := [Red]];
    var o := Hex(0, 1);
    var g3 := map[Hex(0, 1) := [Red] + Repeat(Red, 9)];
    var nine := Repeat(Red, 9);
    TopRunUnique(nine, Red, 9);
    assert nine[..|nine| - 9] == [];
    assert Matches(g, Hex(0, 0), Red);
    var after := g[o := [Red] + Repeat(Red, 9)][Hex(0, 0) := []] - {Hex(0, 0)};
    assert after.Keys == g3.Keys && after[o] == g3[o];
    assert after == g3;
  }

  lemma TenthTileSweep()
    ensures Sweep(map[Hex(0, 0) := Repeat(Red, 9), Hex(0, 1) := [Red]], Hex(0, 1), Red, Neighbors(Hex(0, 1)))
            == (map[Hex(0, 1) := [Red] + Repeat(Red, 9)], 9)
  {
    var g := map[Hex(0, 0) := Repeat(Red, 9), Hex(0, 1) := [Red]];
    var o := Hex(0, 1);
    var ns := Neighbors(o);
    assert ns == [Hex(1, 1), Hex(1, 0), Hex(0, 0), Hex(-1, 1), Hex(-1, 2), Hex(0, 2)];
    SweepSingleMatch(g, o, Red, ns, Hex(0, 0));
    TenthTileAbsorb();
  }

  /** The tenth red tile on a 9-tall red stack overflows: the cell is cleared and 9 * 20 + 100 points are scored. */
  lemma TenthTileOverflows()
    ensures MergeOutcome(map[Hex(0, 0) := Repeat(Red, 9), Hex(0, 1) := [Red]], Hex(0, 1)) == (map[], 280)
  {
    TenthTileSweep();
    var g3 := map[Hex(0, 1) := [Red] + Repeat(Red, 9)];
    assert g3 - {Hex(0, 1)} == map[];
  }
}
