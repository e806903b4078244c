/**
 * Well-known boards on a bounded 3x3 board, worked through the transition
 * rule: a blinker oscillates forever, so the stability search never ends
 * early, while a glider is squeezed against the edges into a block, a still
 * life.
 */
module Patterns {
  import opened Grids
  import opened Engine
  import opened Lifecycle

  const HorizontalBlinker: Grid := [[false, false, false], [true, true, true], [false, false, false]]
  const VerticalBlinker: Grid := [[false, true, false], [false, true, false], [false, true, false]]

  const Glider: Grid := [[false, true, false], [false, false, true], [true, true, true]]
  const Glider1: Grid := [[false, false, false], [true, false, true], [false, true, true]]
  const Glider2: Grid := [[false, false, false], [false, false, true], [false, true, true]]
  const Block: Grid := [[false, false, false], [false, true, true], [false, true, true]]

  lemma BlinkerFlips()
    ensures NextGeneration(HorizontalBlinker) == VerticalBlinker
  {
    var g := HorizontalBlinker;
    forall r, c | 0 <= r < 3 && 0 <= c < 3
      ensures VerticalBlinker[r][c] == Rule(g[r][c], NeighborCount(g, r, c))
    {
      NeighborCountSum(g, r, c);
    }
    NextGenerationIs(g, VerticalBlinker);
  }

  lemma BlinkerFlipsBack()
    ensures NextGeneration(VerticalBlinker) == HorizontalBlinker
  {
    var g := VerticalBlinker;
    forall r, c | 0 <= r < 3 && 0 <= c < 3
      ensures HorizontalBlinker[r][c] == Rule(g[r][c], NeighborCount(g, r, c))
    {
      NeighborCountSum(g, r, c);
    }
    NextGenerationIs(g, HorizontalBlinker);
  }

  /** Generation `k` of the horizontal blinker: horizontal when `k` is even, vertical when odd. */
  lemma {:induction false} BlinkerPhase(k: nat)
    ensures Iterate(HorizontalBlinker, k) == if k % 2 == 0 then HorizontalBlinker else VerticalBlinker
  {
    if k > 0 {
      BlinkerPhase(k - 1);
      BlinkerFlips();
      BlinkerFlipsBack();
    }
  }

  lemma BlinkerNotStill()
    ensures !IsFixedPoint(HorizontalBlinker) && !IsFixedPoint(VerticalBlinker)
  {
    BlinkerFlips();
    BlinkerFlipsBack();
    assert HorizontalBlinker[0][1] != VerticalBlinker[0][1];
  }

  /** No generation of a blinker is a fixed point, so the stability search fails for every limit. */
  lemma {:induction false} BlinkerNeverSettles(n: int)
    ensures Unsettled(HorizontalBlinker, n)
    decreases n
  {
    if n > 0 {
      BlinkerNeverSettles(n - 1);
      BlinkerPhase(n - 1);
      BlinkerNotStill();
      assert !IsFixedPoint(Iterate(HorizontalBlinker, n - 1));
    }
  }

  lemma GliderFirstStep()
    ensures NextGeneration(Glider) == Glider1
  {
    var g := Glider;
    forall r, c | 0 <= r < 3 && 0 <= c < 3
      ensures Glider1[r][c] == Rule(g[r][c], NeighborCount(g, r, c))
    {
      NeighborCountSum(g, r, c);
    }
    NextGenerationIs(g, Glider1);
  }

  lemma GliderSecondStep()
    ensures NextGeneration(Glider1) == Glider2
  {
    var g := Glider1;
    forall r, c | 0 <= r < 3 && 0 <= c < 3
      ensures Glider2[r][c] == Rule(g[r][c], NeighborCount(g, r, c))
    {
      NeighborCountSum(g, r, c);
    }
    NextGenerationIs(g, Glider2);
  }

  lemma GliderThirdStep()
    ensures NextGeneration(Glider2) == Block
  {
    var g := Glider2;
    forall r, c | 0 <= r < 3 && 0 <= c < 3
      ensures Block[r][c] == Rule(g[r][c], NeighborCount(g, r, c))
    {
      NeighborCountSum(g, r, c);
    }
    NextGenerationIs(g, Block);
  }

  /** The block is a still life: every live cell has three neighbours, no dead cell has three. */
  lemma BlockIsStill()
    ensures IsFixedPoint(Block)
  {
    var g := Block;
    forall r, c | 0 <= r < 3 && 0 <= c < 3
      ensures Block[r][c] == Rule(g[r][c], NeighborCount(g, r, c))
    {
      NeighborCountSum(g, r, c);
    }
    NextGenerationIs(g, Block);
  }

  /**
   * On a 3x3 board the glider first repeats at generation 3: the stability
   * search stops on its fourth attempt and returns the block, and five
   * steps also end on the block.
   */
  lemma GliderSettles(maxAttempts: int)
    requires maxAttempts > 3
    ensures Iterate(Glider, 3) == Block && Iterate(Glider, 4) == Block && Iterate(Glider, 5) == Block
    ensures FirstFixedPointAt(Glider, 3, maxAttempts)
    ensures !Unsettled(Glider, maxAttempts)
  {
    GliderFirstStep();
    GliderSecondStep();
    GliderThirdStep();
    BlockIsStill();
    assert Iterate(Glider, 1) == Glider1 && Iterate(Glider, 2) == Glider2;
    assert Glider[0][1] != Glider1[0][1] && Glider1[1][0] != Glider2[1][0] && Glider2[1][1] != Block[1][1];
    assert Unsettled(Glider, 1) && Unsettled(Glider, 2);
    SettledStays(Glider, 3, maxAttempts);
    IterateAdds(Glider, 3, 2);
    FixedPointStays(Block, 2);
  }

  /** A board with no live cell, of any size, stays dead. */
  lemma DeadBoardIsStill(g: Grid)
    requires Rectangular(g)
    requires forall r, c :: 0 <= r < |g| && 0 <= c < |g[0]| ==> !g[r][c]
    ensures IsFixedPoint(g)
  {
    forall r, c | 0 <= r < |g| && 0 <= c < |g[0]|
      ensures g[r][c] == Rule(g[r][c], NeighborCount(g, r, c))
    {
      NeighborCountSum(g, r, c);
    }
    NextGenerationIs(g, g);
  }

  /** The stability search on a dead board stops on its first attempt and returns the board unchanged. */
  lemma DeadBoardSettlesAtOnce(g: Grid, maxAttempts: int)
    requires Rectangular(g) && maxAttempts > 0
    requires forall r, c :: 0 <= r < |g| && 0 <= c < |g[0]| ==> !g[r][c]
    ensures FirstFixedPointAt(g, 0, maxAttempts) && Iterate(g, 1) == g
  {
    DeadBoardIsStill(g);
  }
}
