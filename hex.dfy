/**
 * Axial hex geometry of the board: the cells of a radius-R board, the six
 * neighbours of a cell, and the bounds test used by the drop and highlight
 * handlers.
 */
module HexGrid {

  /** An axial cell coordinate; the implicit cube coordinate is s = -q - r. */
  datatype Hex = Hex(q: int, r: int)

  /** The board radius used by the game (19 cells). */
  const GRID_RADIUS: int := 2

  function Abs(x: int): nat
  {
    if x < 0 then -x else x
  }

  function Max(a: int, b: int): int
  {
    if a < b then b else a
  }

  function Min(a: int, b: int): int
  {
    if a < b then a else b
  }

  /** The bounds test of the drop and highlight handlers: |q|, |r| and |q + r| all at most the radius. */
  predicate InBounds(h: Hex, radius: int)
  {
    Abs(h.q) <= radius && Abs(h.r) <= radius && Abs(h.q + h.r) <= radius
  }

  /** Cube distance between two cells. */
  function Distance(a: Hex, b: Hex): nat
  {
    (Abs(a.q - b.q) + Abs(a.r - b.r) + Abs((a.q + a.r) - (b.q + b.r))) / 2
  }

  // ---------------------------------------------------------------------
  // Enumeration order of the board cells
  // ---------------------------------------------------------------------

  /** The enumeration order: q ascending, then r ascending. */
  predicate Before(a: Hex, b: Hex)
  {
    a.q < b.q || (a.q == b.q && a.r < b.r)
  }

  predicate StrictlyOrdered(s: seq<Hex>)
  {
    forall i, j :: 0 <= i < j < |s| ==> Before(s[i], s[j])
  }

  predicate Distinct<T(==)>(s: seq<T>)
  {
    forall i, j :: 0 <= i < j < |s| ==> s[i] != s[j]
  }

  /** Lowest and highest r on row q of a radius-`radius` board. */
  function RowLow(radius: int, q: int): int
  {
    Max(-radius, -q - radius)
  }

  function RowHigh(radius: int, q: int): int
  {
    Min(radius, -q + radius)
  }

  /** The cells Hex(q, lo), ..., Hex(q, hi), in order. */
  function Row(q: int, lo: int, hi: int): seq<Hex>
    decreases hi - lo
  {
    if hi < lo then [] else Row(q, lo, hi - 1) + [Hex(q, hi)]
  }

  /** The rows q = -radius .. upto - 1 of the board, in order. */
  function Rows(radius: int, upto: int): seq<Hex>
    decreases upto + radius
  {
    if upto <= -radius then []
    else Rows(radius, upto - 1) + Row(upto - 1, RowLow(radius, upto - 1), RowHigh(radius, upto - 1))
  }

  /** The cells of a radius-`radius` board, in the order the board loop visits them. */
  function GridHexes(radius: int): seq<Hex>
  {
    Rows(radius, radius + 1)
  }

  /** The board enumeration with its two nested loops. */
  method GetGridHexes(radius: int) returns (hexes: seq<Hex>)
    ensures hexes == GridHexes(radius)
    ensures forall h :: h in hexes <==> InBounds(h, radius)
    ensures StrictlyOrdered(hexes) && Distinct(hexes)
  {
    hexes := [];
    var q := -radius;
    while q <= radius
      invariant radius >= 0 ==> -radius <= q <= radius + 1
      invariant radius < 0 ==> q == -radius
      invariant hexes == Rows(radius, q)
    {
      var r1 := Max(-radius, -q - radius);
      var r2 := Min(radius, -q + radius);
      ghost var before := hexes;
      var r := r1;
      while r <= r2
        invariant r1 <= r <= r2 + 1
        invariant hexes == before + Row(q, r1, r - 1)
      {
        hexes := hexes + [Hex(q, r)];
        r := r + 1;
      }
      q := q + 1;
    }
    GridHexesMembership(radius);
    GridHexesOrdered(radius);
  }

  lemma {:induction false} RowMembership(q: int, lo: int, hi: int, h: Hex)
    ensures h in Row(q, lo, hi) <==> h.q == q && lo <= h.r <= hi
    decreases hi - lo
  {
    if hi >= lo {
      RowMembership(q, lo, hi - 1, h);
    }
  }

  lemma {:induction false} RowOrdered(q: int, lo: int, hi: int)
    ensures StrictlyOrdered(Row(q, lo, hi))
    ensures forall h :: h in Row(q, lo, hi) ==> h.q == q && h.r <= hi
    decreases hi - lo
  {
    if hi >= lo {
      RowOrdered(q, lo, hi - 1);
      var s := Row(q, lo, hi - 1);
      assert Row(q, lo, hi) == s + [Hex(q, hi)];
      forall h | h in Row(q, lo, hi)
        ensures h.q == q && h.r <= hi
      {
        if h != Hex(q, hi) {
          assert h in s;
        }
      }
    }
  }

  /** Concatenating two ordered runs, all of the first before all of the second, stays ordered. */
  lemma OrderedConcat(a: seq<Hex>, b: seq<Hex>)
    requires StrictlyOrdered(a) && StrictlyOrdered(b)
    requires forall x, y :: x in a && y in b ==> Before(x, y)
    ensures StrictlyOrdered(a + b)
  {
    forall i, j | 0 <= i < j < |a + b|
      ensures Before((a + b)[i], (a + b)[j])
    {
      if j >= |a| && i < |a| {
        assert (a + b)[i] in a && (a + b)[j] in b;
      }
    }
  }

  /** On rows inside the board, the row's r-range is exactly the cells passing the bounds test. */
  lemma RowRange(radius: int, h: Hex)
    requires -radius <= h.q <= radius
    ensures RowLow(radius, h.q) <= h.r <= RowHigh(radius, h.q) <==> InBounds(h, radius)
  {
  }

  lemma {:induction false} RowsMembership(radius: int, upto: int, h: Hex)
    requires radius >= 0 && -radius <= upto <= radius + 1
    ensures h in Rows(radius, upto) <==> InBounds(h, radius) && h.q < upto
    decreases upto + radius
  {
    if upto > -radius {
      var q := upto - 1;
      RowsMembership(radius, q, h);
      RowMembership(q, RowLow(radius, q), RowHigh(radius, q), h);
      if h.q == q {
        RowRange(radius, h);
      }
    }
  }

  lemma {:induction false} RowsOrdered(radius: int, upto: int)
    requires radius >= 0 && -radius <= upto <= radius + 1
    ensures StrictlyOrdered(Rows(radius, upto))
    ensures forall h :: h in Rows(radius, upto) ==> h.q < upto
    decreases upto + radius
  {
    if upto > -radius {
      var q := upto - 1;
      RowsOrdered(radius, q);
      RowOrdered(q, RowLow(radius, q), RowHigh(radius, q));
      var a, b := Rows(radius, q), Row(q, RowLow(radius, q), RowHigh(radius, q));
      OrderedConcat(a, b);
      forall h | h in Rows(radius, upto)
        ensures h.q < upto
      {
        if h !in a {
          assert h in b;
        }
      }
    }
  }

  /** Board membership is exactly the bounds test. */
  lemma GridHexesMembership(radius: int)
    ensures forall h :: h in GridHexes(radius) <==> InBounds(h, radius)
  {
    if radius >= 0 {
      forall h
        ensures h in GridHexes(radius) <==> InBounds(h, radius)
      {
        RowsMembership(radius, radius + 1, h);
      }
    }
  }

  /** The board cells come out ordered by q then r, hence without duplicates. */
  lemma GridHexesOrdered(radius: int)
    ensures StrictlyOrdered(GridHexes(radius))
    ensures Distinct(GridHexes(radius))
  {
    if radius >= 0 {
      RowsOrdered(radius, radius + 1);
    }
    var s := GridHexes(radius);
    forall i, j | 0 <= i < j < |s|
      ensures s[i] != s[j]
    {
      assert Before(s[i], s[j]);
    }
  }

  /** The game's board has 19 cells. */
  lemma GridHexesCount()
    ensures |GridHexes(GRID_RADIUS)| == 19
  {
    assert Row(-2, 0, 2) == [Hex(-2, 0), Hex(-2, 1), Hex(-2, 2)];
    assert Row(-1, -1, 2) == [Hex(-1, -1), Hex(-1, 0), Hex(-1, 1), Hex(-1, 2)];
    assert |Row(0, -2, 2)| == 5;
    assert |Row(1, -2, 1)| == 4;
    assert |Row(2, -2, 0)| == 3;
  }

  /** The bounds test of the drop and highlight handlers agrees with board membership. */
  lemma BoundsTestIsBoardMembership(h: Hex)
    ensures InBounds(h, GRID_RADIUS) <==> h in GridHexes(GRID_RADIUS)
  {
    GridHexesMembership(GRID_RADIUS);
  }

  // ---------------------------------------------------------------------
  // Neighbours
  // ---------------------------------------------------------------------

  /** The six axial direction offsets, in the order the merge visits them. */
  const DIRECTIONS: seq<Hex> := [Hex(1, 0), Hex(1, -1), Hex(0, -1), Hex(-1, 0), Hex(-1, 1), Hex(0, 1)]

  /** The six neighbours of `h`, one per direction offset, in the fixed order. */
  function Neighbors(h: Hex): (ns: seq<Hex>)
    ensures |ns| == 6 && Distinct(ns) && h !in ns
  {
    seq(|DIRECTIONS|, i requires 0 <= i < |DIRECTIONS| => Hex(h.q + DIRECTIONS[i].q, h.r + DIRECTIONS[i].r))
  }

  /** The neighbours are exactly the cells at cube distance 1. */
  lemma NeighborsAreAdjacent(h: Hex, n: Hex)
    ensures n in Neighbors(h) <==> Distance(h, n) == 1
  {
    var ns := Neighbors(h);
    assert ns == [Hex(h.q + 1, h.r), Hex(h.q + 1, h.r - 1), Hex(h.q, h.r - 1),
                  Hex(h.q - 1, h.r), Hex(h.q - 1, h.r + 1), Hex(h.q, h.r + 1)];
  }

  /** Adjacency is symmetric. */
  lemma NeighborsSymmetric(h: Hex, n: Hex)
    ensures n in Neighbors(h) <==> h in Neighbors(n)
  {
    NeighborsAreAdjacent(h, n);
    NeighborsAreAdjacent(n, h);
  }
}
