/** Classic Game of Life configurations and what one generation does to them:
    the empty world, a lone cell, the block still life, a blinker (a line of three),
    an overcrowded centre, and neighbour counts that wrap across the world's edges. */
module Patterns {
  import opened Rules

  /** The grid whose live cells are exactly those of the rectangle [x0, x1] × [y0, y1]. */
  function Rect(x0: int, y0: int, x1: int, y1: int): (g: Grid)
    ensures IsGrid(g)
    ensures forall x, y :: 0 <= x < WIDTH && 0 <= y < HEIGHT ==>
      (g[x][y] == Alive <==> x0 <= x <= x1 && y0 <= y <= y1)
  {
    seq(WIDTH, x => seq(HEIGHT, y => if x0 <= x <= x1 && y0 <= y <= y1 then Alive else Dead))
  }

  /** The 2×2 block with its corner at (1, 1). */
  function Block(): (g: Grid)
    ensures IsGrid(g)
  {
    Rect(1, 1, 2, 2)
  }

  /** The all-dead grid is a fixed point of the generation step: every count is 0, and a
      dead cell whose count is not 3 stays dead. */
  lemma AllDeadIsFixedPoint()
    ensures NextGeneration(AllDead()) == AllDead()
  {
    var g := AllDead();
    var h := NextGeneration(g);
    forall x, y | 0 <= x < WIDTH && 0 <= y < HEIGHT
      ensures h[x][y] == g[x][y]
    {
      NeighbourCountEightOffsets(g, x, y);
    }
    assert forall x :: 0 <= x < WIDTH ==> h[x] == g[x];
  }

  /** The neighbour count wraps across the edges: with only (0, 0) alive, the opposite
      corner (WIDTH-1, HEIGHT-1) sees it diagonally and (0, HEIGHT-1) sees it vertically. */
  lemma CountWrapsAcrossEdges()
    ensures NeighbourCount(Rect(0, 0, 0, 0), WIDTH - 1, HEIGHT - 1) == 1
    ensures NeighbourCount(Rect(0, 0, 0, 0), 0, HEIGHT - 1) == 1
  {
    var g := Rect(0, 0, 0, 0);
    NeighbourCountEightOffsets(g, WIDTH - 1, HEIGHT - 1);
    NeighbourCountEightOffsets(g, 0, HEIGHT - 1);
  }

  /** A live cell with no live neighbour dies of underpopulation, wherever it is. */
  lemma LoneCellDies(x: nat, y: nat)
    requires x < WIDTH && y < HEIGHT
    ensures NeighbourCount(Rect(x, y, x, y), x, y) == 0
    ensures NextGeneration(Rect(x, y, x, y))[x][y] == Dead
  {
    NeighbourCountEightOffsets(Rect(x, y, x, y), x, y);
  }

  /** A vertical line of three live cells (a blinker) gives birth beside its middle cell:
      that dead cell has exactly three live neighbours. */
  lemma BlinkerGivesBirth()
    ensures NeighbourCount(Rect(1, 1, 1, 3), 2, 2) == 3
    ensures NextGeneration(Rect(1, 1, 1, 3))[2][2] == Alive
  {
    NeighbourCountEightOffsets(Rect(1, 1, 1, 3), 2, 2);
  }

  /** The end cell (1, 1) of a blinker has a single live neighbour and dies. */
  lemma BlinkerFirstEndDies()
    ensures NeighbourCount(Rect(1, 1, 1, 3), 1, 1) == 1
    ensures NextGeneration(Rect(1, 1, 1, 3))[1][1] == Dead
  {
    NeighbourCountEightOffsets(Rect(1, 1, 1, 3), 1, 1);
  }

  /** The other end cell (1, 3) of a blinker has a single live neighbour and dies too. */
  lemma BlinkerLastEndDies()
    ensures NeighbourCount(Rect(1, 1, 1, 3), 1, 3) == 1
    ensures NextGeneration(Rect(1, 1, 1, 3))[1][3] == Dead
  {
    NeighbourCountEightOffsets(Rect(1, 1, 1, 3), 1, 3);
  }

  /** The centre of a fully live 3×3 square has all eight neighbours alive, the only count
      that reaches the diagnostic branch, and dies of overcrowding. */
  lemma FullSquareCentreDies()
    ensures NeighbourCount(Rect(1, 1, 3, 3), 2, 2) == 8
    ensures NextGeneration(Rect(1, 1, 3, 3))[2][2] == Dead
  {
    NeighbourCountEightOffsets(Rect(1, 1, 3, 3), 2, 2);
  }

  /** Every cell's count in the block: three for the block's own cells (the other three),
      at most two for the dead cells around it, none further away, across any edge. */
  lemma BlockCounts(x: nat, y: nat)
    requires x < WIDTH && y < HEIGHT
    ensures 1 <= x <= 2 && 1 <= y <= 2 ==> NeighbourCount(Block(), x, y) == 3
    ensures !(1 <= x <= 2 && 1 <= y <= 2) ==> NeighbourCount(Block(), x, y) <= 2
  {
    NeighbourCountEightOffsets(Block(), x, y);
  }

  /** The block is a still life: each of its cells has three live neighbours and survives,
      and no dead cell has three, so one generation leaves the grid unchanged. */
  lemma BlockIsStillLife()
    ensures NextGeneration(Block()) == Block()
  {
    var g := Block();
    var h := NextGeneration(g);
    forall x, y | 0 <= x < WIDTH && 0 <= y < HEIGHT
      ensures h[x][y] == g[x][y]
    {
      BlockCounts(x, y);
    }
    assert forall x :: 0 <= x < WIDTH ==> h[x] == g[x];
  }
}
