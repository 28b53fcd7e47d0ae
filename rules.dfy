/** The rules of Conway's Game of Life (B3/S23) on the fixed toroidal world:
    the cell states, the world's dimensions, the wrap-around of coordinates,
    the neighbour count and the generation step, as pure functions that the
    imperative World engine is verified against. */
module Rules {

  /** A cell is either alive or dead; declared in the order the engine declares it. */
  datatype Cell = Alive | Dead

  /** Number of columns (x ranges over [0, WIDTH)). */
  const WIDTH: nat := 80
  /** Number of rows (y ranges over [0, HEIGHT)). */
  const HEIGHT: nat := 100

  /** A grid value indexed as g[x][y], column-major like the engine's nested array. */
  type Grid = seq<seq<Cell>>

  /** g has exactly the fixed dimensions of the world. */
  predicate IsGrid(g: Grid) {
    |g| == WIDTH && forall x :: 0 <= x < |g| ==> |g[x]| == HEIGHT
  }

  /** Euclidean remainder (`rem_euclid`): the representative of `a` modulo `m` in [0, m),
      never negative, whatever the sign of `a`. */
  function RemEuclid(a: int, m: int): (r: int)
    requires m > 0
    ensures 0 <= r < m
    ensures 0 <= a < m ==> r == a
    ensures -m <= a < 0 ==> r == a + m
    ensures m <= a < 2 * m ==> r == a - m
  {
    a % m
  }

  /** The torus seen along one axis of length `size`: a coordinate one step off either
      edge re-enters from the opposite edge; any other coordinate stays put. */
  function Wrap(v: int, size: nat): (w: nat)
    requires -1 <= v <= size && size > 0
    ensures w < size
  {
    if v == -1 then size - 1 else if v == size then 0 else v
  }

  /** On a neighbour's coordinate, `rem_euclid` is exactly the torus wrap. */
  lemma WrapIsRemEuclid(v: int, size: nat)
    requires -1 <= v <= size && size > 0
    ensures Wrap(v, size) == RemEuclid(v, size)
  {
  }

  /** 1 for a live cell, 0 for a dead one: what each neighbour adds to the total. */
  function Weight(c: Cell): (w: nat)
    ensures w <= 1
    ensures w == 1 <==> c == Alive
  {
    match c
    case Alive => 1
    case Dead => 0
  }

  /** The cell seen from (x, y) at offset (dx, dy), both coordinates wrapped. */
  function Neighbour(g: Grid, x: nat, y: nat, dx: int, dy: int): Cell
    requires IsGrid(g) && x < WIDTH && y < HEIGHT
    requires -1 <= dx <= 1 && -1 <= dy <= 1
  {
    g[Wrap(x + dx, WIDTH)][Wrap(y + dy, HEIGHT)]
  }

  /** The neighbour is the cell whose coordinates are reduced with `rem_euclid`: a step off
      one edge lands on the opposite edge. */
  lemma NeighbourIsRemEuclid(g: Grid, x: nat, y: nat, dx: int, dy: int)
    requires IsGrid(g) && x < WIDTH && y < HEIGHT
    requires -1 <= dx <= 1 && -1 <= dy <= 1
    ensures Neighbour(g, x, y, dx, dy) == g[RemEuclid(x + dx, WIDTH)][RemEuclid(y + dy, HEIGHT)]
  {
    WrapIsRemEuclid(x + dx, WIDTH);
    WrapIsRemEuclid(y + dy, HEIGHT);
  }

  /** The number of neighbour offsets. */
  const NEIGHBOURS: nat := 8

  /** The k-th of the eight offsets {-1,0,1}² without the centre (0, 0), in the order the
      engine's nested dx/dy scan visits them: dx from -1 to 1, and dy from -1 to 1 within. */
  function Offset(k: nat): (d: (int, int))
    requires k < NEIGHBOURS
    ensures -1 <= d.0 <= 1 && -1 <= d.1 <= 1 && d != (0, 0)
  {
    if k < 3 then (-1, k - 1)
    else if k < 5 then (0, if k == 3 then -1 else 1)
    else (1, k - 6)
  }

  /** The number of live cells among the wrapped neighbours of (x, y) at the first k offsets. */
  function CountFirst(g: Grid, x: nat, y: nat, k: nat): nat
    requires IsGrid(g) && x < WIDTH && y < HEIGHT && k <= NEIGHBOURS
  {
    if k == 0 then 0
    else CountFirst(g, x, y, k - 1) + Weight(Neighbour(g, x, y, Offset(k - 1).0, Offset(k - 1).1))
  }

  /** The number of live cells among the eight wrapped neighbours of (x, y). */
  function NeighbourCount(g: Grid, x: nat, y: nat): nat
    requires IsGrid(g) && x < WIDTH && y < HEIGHT
  {
    CountFirst(g, x, y, NEIGHBOURS)
  }

  /** The offsets are the eight neighbour offsets, each listed once: (dx, dy) in {-1,0,1}²
      is some Offset(k) if and only if it is not the centre, and no two k give the same offset. */
  lemma OffsetsAreTheEightNeighbours(dx: int, dy: int)
    requires -1 <= dx <= 1 && -1 <= dy <= 1
    ensures (exists k :: 0 <= k < NEIGHBOURS && Offset(k) == (dx, dy)) <==> dx != 0 || dy != 0
    ensures forall k, l :: 0 <= k < l < NEIGHBOURS ==> Offset(k) != Offset(l)
  {
    if dx != 0 || dy != 0 {
      var k := Visited(dx, dy);
      assert Offset(k) == (dx, dy);
    }
  }

  /** How many offsets the nested scan has visited when it is about to look at (dx, dy):
      three per finished dx column, one per finished dy in the current column, and the
      centre, which the scan skips, is never counted. */
  function Visited(dx: int, dy: int): (k: nat)
    requires -1 <= dx <= 2 && -1 <= dy <= 2
    requires dx == 2 ==> dy == -1
    ensures k <= NEIGHBOURS
    ensures -1 <= dx <= 1 && -1 <= dy <= 1 && (dx != 0 || dy != 0) ==> k < NEIGHBOURS && Offset(k) == (dx, dy)
  {
    3 * (dx + 1) + (dy + 1) - (if dx > 0 || (dx == 0 && dy > 0) then 1 else 0)
  }

  /** Counting over the first k offsets adds at most one per offset. */
  lemma {:induction false} CountFirstBound(g: Grid, x: nat, y: nat, k: nat)
    requires IsGrid(g) && x < WIDTH && y < HEIGHT && k <= NEIGHBOURS
    ensures CountFirst(g, x, y, k) <= k
  {
    if k > 0 {
      CountFirstBound(g, x, y, k - 1);
    }
  }

  /** The neighbour count is the sum over the eight offsets {-1,0,1}² without (0, 0):
      the centre cell itself is never counted. */
  lemma NeighbourCountEightOffsets(g: Grid, x: nat, y: nat)
    requires IsGrid(g) && x < WIDTH && y < HEIGHT
    ensures NeighbourCount(g, x, y) ==
      Weight(Neighbour(g, x, y, -1, -1)) + Weight(Neighbour(g, x, y, -1, 0)) + Weight(Neighbour(g, x, y, -1, 1)) +
      Weight(Neighbour(g, x, y, 0, -1)) + Weight(Neighbour(g, x, y, 0, 1)) +
      Weight(Neighbour(g, x, y, 1, -1)) + Weight(Neighbour(g, x, y, 1, 0)) + Weight(Neighbour(g, x, y, 1, 1))
  {
    assert CountFirst(g, x, y, 0) == 0;
    assert CountFirst(g, x, y, 1) == CountFirst(g, x, y, 0) + Weight(Neighbour(g, x, y, -1, -1));
    assert CountFirst(g, x, y, 2) == CountFirst(g, x, y, 1) + Weight(Neighbour(g, x, y, -1, 0));
    assert CountFirst(g, x, y, 3) == CountFirst(g, x, y, 2) + Weight(Neighbour(g, x, y, -1, 1));
    assert CountFirst(g, x, y, 4) == CountFirst(g, x, y, 3) + Weight(Neighbour(g, x, y, 0, -1));
    assert CountFirst(g, x, y, 5) == CountFirst(g, x, y, 4) + Weight(Neighbour(g, x, y, 0, 1));
    assert CountFirst(g, x, y, 6) == CountFirst(g, x, y, 5) + Weight(Neighbour(g, x, y, 1, -1));
    assert CountFirst(g, x, y, 7) == CountFirst(g, x, y, 6) + Weight(Neighbour(g, x, y, 1, 0));
    assert CountFirst(g, x, y, 8) == CountFirst(g, x, y, 7) + Weight(Neighbour(g, x, y, 1, 1));
  }

  /** The neighbour count is always in [0, 8]. */
  lemma NeighbourCountRange(g: Grid, x: nat, y: nat)
    requires IsGrid(g) && x < WIDTH && y < HEIGHT
    ensures 0 <= NeighbourCount(g, x, y) <= 8
  {
    CountFirstBound(g, x, y, NEIGHBOURS);
  }

  /** The transition rule, in the engine's precedence order:
      a live cell with fewer than two neighbours dies, with two or three it survives,
      with more than three it dies; a dead cell with exactly three comes alive;
      anything else keeps its state. */
  function NextCell(c: Cell, n: nat): (r: Cell)
    ensures r.Alive? <==> n == 3 || (c.Alive? && n == 2)
  {
    if c == Alive && n < 2 then Dead
    else if c == Alive && (n == 2 || n == 3) then Alive
    else if c == Alive && n > 3 then Dead
    else if c == Dead && n == 3 then Alive
    else c
  }

  /** Each case of the rule, stated separately. */
  lemma NextCellCases(c: Cell, n: nat)
    ensures c == Alive && n < 2 ==> NextCell(c, n) == Dead
    ensures c == Alive && (n == 2 || n == 3) ==> NextCell(c, n) == Alive
    ensures c == Alive && n > 3 ==> NextCell(c, n) == Dead
    ensures c == Dead && n == 3 ==> NextCell(c, n) == Alive
    ensures c == Dead && n != 3 ==> NextCell(c, n) == Dead
  {
  }

  /** The next generation: every cell follows the rule applied to its own state and its
      neighbour count, both taken from the same, unmodified, previous generation. */
  function NextGeneration(g: Grid): (h: Grid)
    requires IsGrid(g)
    ensures IsGrid(h)
    ensures forall x, y {:trigger h[x][y]} :: 0 <= x < WIDTH && 0 <= y < HEIGHT ==>
      (h[x][y] == Alive <==> NeighbourCount(g, x, y) == 3 || (g[x][y] == Alive && NeighbourCount(g, x, y) == 2))
  {
    seq(WIDTH, x requires 0 <= x < WIDTH =>
      seq(HEIGHT, y requires 0 <= y < HEIGHT => NextCell(g[x][y], NeighbourCount(g, x, y))))
  }

  /** Cell (x, y) of the next generation is the rule applied to the cell and its count. */
  lemma NextGenerationAt(g: Grid, x: nat, y: nat)
    requires IsGrid(g) && x < WIDTH && y < HEIGHT
    ensures NextGeneration(g)[x][y] == NextCell(g[x][y], NeighbourCount(g, x, y))
  {
  }

  /** The grid with every cell dead. */
  function AllDead(): (g: Grid)
    ensures IsGrid(g)
    ensures forall x, y :: 0 <= x < WIDTH && 0 <= y < HEIGHT ==> g[x][y] == Dead
  {
    seq(WIDTH, _ => seq(HEIGHT, _ => Dead))
  }

  /** g with the cell at (x, y) replaced by c and every other cell unchanged. */
  function SetAt(g: Grid, x: nat, y: nat, c: Cell): (h: Grid)
    requires IsGrid(g) && x < WIDTH && y < HEIGHT
    ensures IsGrid(h)
    ensures h[x][y] == c
    ensures forall i, j :: 0 <= i < WIDTH && 0 <= j < HEIGHT && (i != x || j != y) ==> h[i][j] == g[i][j]
  {
    g[x := g[x][y := c]]
  }
}
