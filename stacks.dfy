/**
 * Colour stacks: a stack is a sequence of colours from bottom to top.
 */
module Stacks {

  /** The five palette colours, as opaque identifiers. */
  datatype Color = Red | Green | Blue | Amber | Purple

  /** A tile stack, bottom first, top last. */
  type Stack = seq<Color>

  /** Stacks reaching this height overflow and are cleared. */
  const MAX_STACK_HEIGHT: nat := 10

  function Top(s: Stack): Color
    requires |s| > 0
  {
    s[|s| - 1]
  }

  /** `n` tiles of colour `c`, as built by filling a fresh array. */
  function Repeat(c: Color, n: nat): (r: Stack)
    ensures |r| == n
    ensures forall i :: 0 <= i < n ==> r[i] == c
  {
    if n == 0 then [] else Repeat(c, n - 1) + [c]
  }

  lemma {:induction false} RepeatConcat(c: Color, a: nat, b: nat)
    ensures Repeat(c, a) + Repeat(c, b) == Repeat(c, a + b)
    decreases b
  {
    if b > 0 {
      RepeatConcat(c, a, b - 1);
      assert Repeat(c, a) + Repeat(c, b) == Repeat(c, a) + Repeat(c, b - 1) + [c];
    }
  }

  /** Every tile of `s` has the colour of its bottom tile. */
  predicate Uniform(s: Stack)
  {
    forall i :: 0 <= i < |s| ==> s[i] == s[0]
  }

  /** Length of the maximal run of colour `c` at the top of `s`. */
  function TopRun(s: Stack, c: Color): (n: nat)
    ensures n <= |s|
    ensures forall i :: |s| - n <= i < |s| ==> s[i] == c
    ensures n < |s| ==> s[|s| - 1 - n] != c
  {
    if |s| == 0 || s[|s| - 1] != c then 0 else 1 + TopRun(s[..|s| - 1], c)
  }

  /** A run length that ends at a differing tile or at the bottom is the maximal top run. */
  lemma TopRunUnique(s: Stack, c: Color, n: nat)
    requires n <= |s|
    requires forall i :: |s| - n <= i < |s| ==> s[i] == c
    requires n < |s| ==> s[|s| - 1 - n] != c
    ensures n == TopRun(s, c)
  {
  }

  /** The match count: scan down from the top while the colour is `c`. */
  method MatchCount(s: Stack, c: Color) returns (n: nat)
    ensures n == TopRun(s, c)
    ensures n > 0 <==> |s| > 0 && Top(s) == c
  {
    n := 0;
    var i := |s| - 1;
    while i >= 0
      invariant -1 <= i < |s|
      invariant n == |s| - 1 - i
      invariant forall k :: i < k < |s| ==> s[k] == c
      decreases i
    {
      if s[i] == c {
        n := n + 1;
      } else {
        break;
      }
      i := i - 1;
    }
    TopRunUnique(s, c, n);
  }

  /**
   * Move `count` tiles of colour `c` one at a time: push onto `onto`, pop
   * from `from`. The popped tiles are the top `count` of `from`.
   */
  method TransferTiles(onto: Stack, from: Stack, c: Color, count: nat) returns (grown: Stack, rest: Stack)
    requires count <= |from|
    ensures grown == onto + Repeat(c, count)
    ensures rest == from[..|from| - count]
  {
    grown, rest := onto, from;
    var i := 0;
    while i < count
      invariant 0 <= i <= count
      invariant grown == onto + Repeat(c, i)
      invariant rest == from[..|from| - i]
    {
      grown := grown + [c];
      rest := rest[..|rest| - 1];
      i := i + 1;
    }
  }

  /** Stripping the maximal top run leaves a stack whose top is no longer `c`. */
  lemma StripTopRun(s: Stack, c: Color, rest: Stack)
    requires rest == s[..|s| - TopRun(s, c)]
    ensures |rest| > 0 ==> Top(rest) != c
    ensures rest + Repeat(c, TopRun(s, c)) == s
  {
    var n := TopRun(s, c);
    var t := rest + Repeat(c, n);
    forall i | 0 <= i < |s|
      ensures t[i] == s[i]
    {
      if i >= |rest| {
        assert t[i] == Repeat(c, n)[i - |rest|];
      }
    }
  }
}
